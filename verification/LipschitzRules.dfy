/**
 Why an extremum's guarantee holds of negation, absolute value and clamps, and
 why the weakest of several guarantees holds of whichever value is picked.
 */
module LipschitzRules {
  import opened Composition
  import opened Guarantees
  import opened Outcomes
  import opened RealBounds
  import opened Results
  import opened ScalarExprs
  import opened ScalarRules

  // --------------------------------------------- the rule, unfolded

  /** Restating a bound never makes an estimate exact. */
  lemma RestatedNotExact(g: Guarantee)
    requires !g.IsExact()
    ensures !AdditiveAsAbsolute(g, None).IsExact()
  {
    if (g.metric == AbsoluteStreamL1 || g.metric == AbsoluteStreamL2) && !IsZero(g.error) {
      var norm := Unknown(if g.metric == AbsoluteStreamL1 then STREAM_L1_NORM else STREAM_L2_NORM);
      ProductOfTwo(g.error, norm);
      assert AdditiveAsAbsolute(g, None).error == Product([g.error, norm]);
      hide IsZero;
      UnknownNotZero(norm);
    }
  }

  lemma {:induction false} ApproximateMember(gs: seq<Guarantee>, i: nat) returns (j: nat)
    requires i < |gs| && !gs[i].IsExact()
    ensures j < |ApproximateOf(gs)| && ApproximateOf(gs)[j] == AdditiveAsAbsolute(gs[i], None)
  {
    hide AdditiveAsAbsolute;
    if i == |gs| - 1 {
      j := |ApproximateOf(gs[..i])|;
    } else {
      j := ApproximateMember(gs[..|gs| - 1], i);
    }
  }

  lemma {:induction false} NoApproximate(gs: seq<Guarantee>)
    ensures ApproximateOf(gs) == [] <==> AllExact(gs)
  {
    hide AdditiveAsAbsolute;
    if gs != [] {
      var rest := gs[..|gs| - 1];
      NoApproximate(rest);
      assert gs == rest + [gs[|gs| - 1]];
    }
  }

  lemma {:induction false} ApproximateNotExact(gs: seq<Guarantee>, j: nat)
    requires j < |ApproximateOf(gs)|
    ensures !ApproximateOf(gs)[j].IsExact()
  {
    hide AdditiveAsAbsolute;
    var rest, last := gs[..|gs| - 1], gs[|gs| - 1];
    if j < |ApproximateOf(rest)| {
      ApproximateNotExact(rest, j);
    } else {
      RestatedNotExact(last);
    }
  }

  /** What a known result of the Lipschitz rule is made of. */
  lemma LipschitzRule(gs: seq<Guarantee>, g: Guarantee)
    requires LipschitzOf(gs) == Some(g)
    ensures ApproximateOf(gs) == [] ==> g.IsExact()
    ensures ApproximateOf(gs) != [] ==>
      && (g.metric == Absolute || g.metric == Relative)
      && (forall j :: 0 <= j < |ApproximateOf(gs)| ==> ApproximateOf(gs)[j].metric == g.metric)
      && g.error == Max(Errors(ApproximateOf(gs)))
      && g.failure == ScaledProbability(Constant(1.0), UnionBound(Failures(ApproximateOf(gs))))
  {
    hide ApproximateOf;
    var approximate := ApproximateOf(gs);
    if approximate != [] {
      ApproximateNotExact(gs, 0);
      assert !AllExact(approximate);
      assert 1 as real == 1.0;
    }
  }

  // --------------------------------------------- failures of arguments

  lemma {:induction false} UnionAppended(events: seq<set<nat>>, last: set<nat>)
    ensures UnionOfAll(events + [last]) == UnionOfAll(events) + last
  {
    if events == [] {
      assert [last][1..] == [];
      assert [] + [last] == [last];
    } else {
      UnionAppended(events[1..], last);
      assert (events + [last])[1..] == events[1..] + [last];
    }
  }

  /** The approximate arguments' failure events, and a rest of no weight. */
  lemma {:induction false} ApproximateEvents(space: Space, gs: seq<Guarantee>, events: seq<set<nat>>)
    returns (picked: seq<set<nat>>, empty: set<nat>)
    requires IsSpace(space) && |events| == |gs|
    requires forall i :: 0 <= i < |gs| ==> Within(space, events[i], gs[i].failure)
    ensures EachWithin(space, picked, Failures(ApproximateOf(gs)))
    ensures Weight(space, empty) <= 0.0
    ensures UnionOfAll(events) <= UnionOfAll(picked) + empty
    decreases |gs|
  {
    hide AdditiveAsAbsolute, IsSpace, Weight, UnionOfAll, Within;
    if gs == [] {
      picked, empty := [], {};
      NothingWeighs(space);
    } else {
      var n := |gs| - 1;
      picked, empty := ApproximateEvents(space, gs[..n], events[..n]);
      UnionAppended(events[..n], events[n]);
      assert events[..n] + [events[n]] == events;
      if gs[n].IsExact() {
        ExactWeighsNothing(space, events[n], gs[n]);
        WeightOfUnion(space, empty, events[n]);
        empty := empty + events[n];
      } else {
        RestatedFailure(gs[n]);
        UnionAppended(picked, events[n]);
        FailuresAppended(ApproximateOf(gs[..n]), AdditiveAsAbsolute(gs[n], None));
        picked := picked + [events[n]];
      }
    }
  }

  lemma NothingWeighs(space: Space)
    ensures Weight(space, {}) <= 0.0 && UnionOfAll([]) == {}
  {
    assert {} * space.outcomes == {};
  }

  lemma ExactWeighsNothing(space: Space, event: set<nat>, g: Guarantee)
    requires g.IsExact() && Within(space, event, g.failure)
    ensures Weight(space, event) <= 0.0
  {
  }

  lemma RestatedFailure(g: Guarantee)
    ensures AdditiveAsAbsolute(g, None).failure == g.failure
  {
  }

  lemma {:induction false} FailuresAppended(gs: seq<Guarantee>, last: Guarantee)
    ensures Failures(gs + [last]) == Failures(gs) + [last.failure]
  {
  }

  /** A composed Lipschitz guarantee allows for every argument's failure. */
  lemma LipschitzWithin(space: Space, gs: seq<Guarantee>, g: Guarantee, events: seq<set<nat>>)
    requires IsSpace(space) && LipschitzOf(gs) == Some(g) && |events| == |gs|
    requires forall i :: 0 <= i < |gs| ==> Within(space, events[i], gs[i].failure)
    ensures Within(space, UnionOfAll(events), g.failure)
  {
    var picked, empty := ApproximateEvents(space, gs, events);
    LipschitzRule(gs, g);
    UnionWithin(space, picked, Failures(ApproximateOf(gs)));
    ScaledByOne(UnionBound(Failures(ApproximateOf(gs))));
    hide IsSpace, Weight, UnionOfAll, FailureBound, LipschitzOf;
    if ApproximateOf(gs) == [] {
      NothingWeighs(space);
      assert picked == [];
      ExactFailure(g);
      WeightMonotone(space, UnionOfAll(events), empty);
    } else {
      SameClaim(space, UnionOfAll(picked), UnionBound(Failures(ApproximateOf(gs))), g.failure);
      NullAdded(space, UnionOfAll(picked), empty, g.failure);
      WithinSmaller(space, UnionOfAll(events), UnionOfAll(picked) + empty, g.failure);
    }
  }

  lemma SameClaim(space: Space, event: set<nat>, p: ProbabilityExpr, q: ProbabilityExpr)
    requires FailureBound(p) == FailureBound(q) && Within(space, event, p)
    ensures Within(space, event, q)
  {
  }

  lemma ExactFailure(g: Guarantee)
    requires g.IsExact()
    ensures FailureBound(g.failure) == Some(0.0)
  {
  }

  /** A failure counted among several is within their union bound. */
  lemma TermWithin(space: Space, event: set<nat>, ps: seq<ProbabilityExpr>, j: nat)
    requires IsSpace(space) && j < |ps| && Within(space, event, ps[j])
    ensures Within(space, event, UnionBound(ps))
  {
    hide IsSpace, Weight, ProbabilitySum, NoneFails;
    WeightBounds(space, event);
    if NoneFails(ps) {
      NeverFailingTerm(ps, j);
    } else if ProbabilitySum(ps).Some? {
      TermOfUnion(ps, j);
      KnownFailure(ps[j]);
    }
  }

  // ------------------------------------------------- values of arguments

  lemma {:induction false} MaxBelow(bounds: seq<BoundExpr>, cap: real)
    requires EvaluateMax(bounds).Some? && cap >= 0.0
    requires forall i :: 0 <= i < |bounds| && Evaluate(bounds[i]).Some? ==> Evaluate(bounds[i]).value <= cap
    ensures EvaluateMax(bounds).value <= cap
  {
    hide Evaluate;
    if bounds != [] { MaxBelow(bounds[1..], cap); }
  }

  /** Every argument is within the composed bound. */
  lemma ArgumentClose(gs: seq<Guarantee>, g: Guarantee, i: nat, x: Value, x': Value)
    requires LipschitzOf(gs) == Some(g) && i < |gs| && Accurate(gs[i], x, x')
    requires BoundOf(g.error).Some?
    ensures Close(g.metric, BoundOf(g.error), x, x')
  {
    LipschitzRule(gs, g);
    hide LipschitzOf;
    if gs[i].IsExact() {
      ExactIsEqual(gs[i], x, x');
    } else {
      var j := ApproximateMember(gs, i);
      RestatedAccurate(gs[i], x, x');
      var restated := ApproximateOf(gs)[j];
      BoundOfMax(Errors(ApproximateOf(gs)), j);
      CloseWider(g.metric, BoundOf(restated.error).value, BoundOf(g.error).value, x, x');
    }
  }

  /** No approximate argument of a clamp has a known relative bound above one. */
  ghost predicate ClampAllows(gs: seq<Guarantee>) {
    forall i :: 0 <= i < |gs| && !gs[i].IsExact() && gs[i].metric == Relative && BoundOf(gs[i].error).Some? ==>
      BoundOf(gs[i].error).value <= 1.0
  }

  lemma {:induction false} ApproximateBelow(gs: seq<Guarantee>, j: nat)
    requires ClampAllows(gs) && j < |ApproximateOf(gs)|
    requires ApproximateOf(gs)[j].metric == Relative && BoundOf(ApproximateOf(gs)[j].error).Some?
    ensures BoundOf(ApproximateOf(gs)[j].error).value <= 1.0
  {
    hide BoundOf;
    var rest, last := gs[..|gs| - 1], gs[|gs| - 1];
    if j < |ApproximateOf(rest)| { ApproximateBelow(rest, j); }
  }

  lemma ClampBound(gs: seq<Guarantee>, g: Guarantee)
    requires LipschitzOf(gs) == Some(g) && ClampAllows(gs) && ApproximateOf(gs) != []
    requires g.metric == Relative && BoundOf(g.error).Some?
    ensures BoundOf(g.error).value <= 1.0
  {
    LipschitzRule(gs, g);
    hide LipschitzOf, ApproximateOf;
    var bounds := Errors(ApproximateOf(gs));
    if !IsZero(g.error) {
      forall j | 0 <= j < |bounds| && Evaluate(bounds[j]).Some? ensures Evaluate(bounds[j]).value <= 1.0 {
        KnownBound(bounds[j]);
        ApproximateBelow(gs, j);
      }
      MaxBelow(bounds, 1.0);
    }
  }

  lemma NegatedClose(metric: Metric, b: real, x: Value, x': Value)
    requires b >= 0.0 && (metric == Absolute || metric == Relative) && Close(metric, Some(b), x, x')
    ensures Close(metric, Some(b), Negated(x), Negated(x'))
  {
    hide Close;
    Numbers(metric, b, x, x');
    if x.Number? {
      NegatedNumbers(x.value, x'.value);
      if metric == Absolute { AbsoluteNumbers(b, 0.0 - x.value, 0.0 - x'.value); }
      if metric == Relative { RelativeNumbers(b, 0.0 - x.value, 0.0 - x'.value); }
    } else {
      SameIsClose(metric, b, Undefined);
    }
  }

  lemma NegatedNumbers(x: real, x': real)
    ensures Distance(0.0 - x', 0.0 - x) == Distance(x', x) && Magnitude(0.0 - x) == Magnitude(x)
  {
  }

  lemma MagnitudeClose(metric: Metric, b: real, x: real, x': real)
    requires b >= 0.0 && (metric == Absolute || metric == Relative) && Close(metric, Some(b), Number(x), Number(x'))
    ensures Close(metric, Some(b), Number(Magnitude(x)), Number(Magnitude(x')))
  {
    hide *;
    Numbers(metric, b, Number(x), Number(x'));
    MagnitudesCloser(x, x');
    if metric == Absolute { AbsoluteNumbers(b, Magnitude(x), Magnitude(x')); }
    if metric == Relative { RelativeNumbers(b, Magnitude(x), Magnitude(x')); }
  }

  lemma MagnitudesCloser(x: real, x': real)
    ensures Distance(Magnitude(x'), Magnitude(x)) <= Distance(x', x) && Magnitude(Magnitude(x)) == Magnitude(x)
  {
  }

  /** The larger and the smaller of two close pairs; a relative bound must not pass one. */
  lemma ExtremumClose(metric: Metric, b: real, x: real, x': real, y: real, y': real)
    requires b >= 0.0 && (metric == Absolute || metric == Relative)
    requires metric == Relative ==> b <= 1.0
    requires Close(metric, Some(b), Number(x), Number(x')) && Close(metric, Some(b), Number(y), Number(y'))
    ensures Close(metric, Some(b), Number(Larger(x, y)), Number(Larger(x', y')))
    ensures Close(metric, Some(b), Number(Smaller(x, y)), Number(Smaller(x', y')))
  {
    hide *;
    Numbers(metric, b, Number(x), Number(x'));
    Numbers(metric, b, Number(y), Number(y'));
    if metric == Absolute {
      AbsoluteExtremum(x, x', y, y', b);
      AbsoluteNumbers(b, Larger(x, y), Larger(x', y'));
      AbsoluteNumbers(b, Smaller(x, y), Smaller(x', y'));
    } else {
      RelativeExtremum(x, x', y, y', b);
      RelativeNumbers(b, Larger(x, y), Larger(x', y'));
      RelativeNumbers(b, Smaller(x, y), Smaller(x', y'));
    }
  }

  ghost predicate AllClose(metric: Metric, b: real, xs: seq<Value>, xs': seq<Value>) {
    |xs| == |xs'| && forall i :: 0 <= i < |xs| ==> Close(metric, Some(b), xs[i], xs'[i])
  }

  /** A clamp or absolute value of values within a bound is within it. */
  lemma FunctionClose(name: FunctionName, metric: Metric, b: real, xs: seq<Value>, xs': seq<Value>, sem: Semantics)
    requires b >= 0.0 && (metric == Absolute || metric == Relative) && !name.Named?
    requires name != Abs && metric == Relative ==> b <= 1.0
    requires AllClose(metric, b, xs, xs')
    ensures Close(metric, Some(b), Apply(name, xs, sem), Apply(name, xs', sem))
  {
    hide Close, Larger, Smaller, Magnitude;
    forall i | 0 <= i < |xs| ensures xs[i].Number? == xs'[i].Number? {
      NumberOrSame(metric, Some(b), xs[i], xs'[i]);
    }
    assert AllNumbers(xs) == AllNumbers(xs');
    if !AllNumbers(xs) || |xs| != (match name case Abs => 1 case Clamp => 3 case _ => 2) {
      SameIsClose(metric, b, Undefined);
    } else {
      var v := seq(|xs|, i requires 0 <= i < |xs| => xs[i].value);
      var v' := seq(|xs|, i requires 0 <= i < |xs| => xs'[i].value);
      forall i | 0 <= i < |xs| ensures Close(metric, Some(b), Number(v[i]), Number(v'[i])) {
        assert xs[i] == Number(v[i]) && xs'[i] == Number(v'[i]);
      }
      if name == Abs {
        MagnitudeClose(metric, b, v[0], v'[0]);
      } else {
        ExtremumClose(metric, b, v[0], v'[0], v[1], v'[1]);
        if name == Clamp {
          ExtremumClose(metric, b, Larger(v[0], v[1]), Larger(v'[0], v'[1]), v[2], v'[2]);
        }
      }
    }
  }

  ghost predicate AllAccurate(gs: seq<Guarantee>, xs: seq<Value>, xs': seq<Value>) {
    |xs| == |gs| && |xs'| == |gs| && forall i :: 0 <= i < |gs| ==> Accurate(gs[i], xs[i], xs'[i])
  }

  /** The composed guarantee of a clamp or absolute value holds whenever its arguments' do. */
  lemma FunctionAccurate(name: FunctionName, gs: seq<Guarantee>, g: Guarantee, xs: seq<Value>, xs': seq<Value>,
                         sem: Semantics)
    requires !name.Named? && LipschitzOf(gs) == Some(g)
    requires AllAccurate(gs, xs, xs')
    requires name != Abs ==> ClampAllows(gs)
    ensures Accurate(g, Apply(name, xs, sem), Apply(name, xs', sem))
  {
    hide LipschitzOf, Close, Apply, ClampAllows, IsZero, NeverFails;
    LipschitzRule(gs, g);
    NoApproximate(gs);
    if AllExact(gs) {
      forall i | 0 <= i < |gs| ensures xs[i] == xs'[i] { ExactIsEqual(gs[i], xs[i], xs'[i]); }
      assert xs == xs';
      SameAccurate(g, Apply(name, xs, sem));
    } else if BoundOf(g.error).Some? {
      var b := BoundOf(g.error).value;
      forall i | 0 <= i < |gs| ensures Close(g.metric, Some(b), xs[i], xs'[i]) {
        ArgumentClose(gs, g, i, xs[i], xs'[i]);
      }
      if name != Abs && g.metric == Relative { ClampBound(gs, g); }
      FunctionClose(name, g.metric, b, xs, xs', sem);
    } else {
      UnknownAccurate(g, Apply(name, xs, sem), Apply(name, xs', sem));
    }
  }

  lemma SameAccurate(g: Guarantee, t: Value)
    ensures Accurate(g, t, t)
  {
  }

  lemma UnknownAccurate(g: Guarantee, t: Value, e: Value)
    requires BoundOf(g.error).None?
    ensures Accurate(g, t, e)
  {
  }

  lemma NegationAccurate(l: Guarantee, g: Guarantee, x: Value, x': Value)
    requires LipschitzOf([l]) == Some(g) && Accurate(l, x, x')
    ensures Accurate(g, Negated(x), Negated(x'))
  {
    hide LipschitzOf, Close, Negated, IsZero, NeverFails;
    LipschitzRule([l], g);
    NoApproximate([l]);
    assert [l][0] == l;
    if l.IsExact() {
      ExactIsEqual(l, x, x');
      SameAccurate(g, Negated(x));
    } else if BoundOf(g.error).Some? {
      ArgumentClose([l], g, 0, x, x');
      NegatedClose(g.metric, BoundOf(g.error).value, x, x');
    } else {
      UnknownAccurate(g, Negated(x), Negated(x'));
    }
  }

  // ------------------------------------------------- the weakest of several

  /** The weakest guarantee holds of a value picked by an exact decision. */
  lemma WeakestAccurate(gs: seq<Guarantee>, g: Guarantee, k: nat, x: Value, x': Value)
    requires Weakest(gs) == Some(g) && k < |gs| && Accurate(gs[k], x, x')
    ensures Accurate(g, x, x')
  {
    hide LipschitzOf, Close, IsZero, NeverFails;
    var distinct := DistinctApproximate(gs);
    if gs[k].IsExact() {
      ExactIsEqual(gs[k], x, x');
      SameAccurate(g, x);
    } else {
      assert gs[k] in distinct;
      var j :| 0 <= j < |distinct| && distinct[j] == gs[k];
      if |distinct| > 1 {
        if BoundOf(g.error).Some? {
          ArgumentClose(distinct, g, j, x, x');
        } else {
          UnknownAccurate(g, x, x');
        }
      }
    }
  }

  /** It also allows for that one value's failure. */
  lemma WeakestWithin(space: Space, gs: seq<Guarantee>, g: Guarantee, k: nat, event: set<nat>)
    requires IsSpace(space) && Weakest(gs) == Some(g) && k < |gs| && Within(space, event, gs[k].failure)
    ensures Within(space, event, g.failure)
  {
    hide IsSpace, LipschitzOf, Weight, IsZero, NeverFails;
    var distinct := DistinctApproximate(gs);
    if gs[k].IsExact() {
      ExactFailure(gs[k]);
      NonNegativeFailure(g.failure);
    } else {
      assert gs[k] in distinct;
      var j :| 0 <= j < |distinct| && distinct[j] == gs[k];
      if |distinct| > 1 {
        LipschitzRule(distinct, g);
        var i := ApproximateMember(distinct, j);
        RestatedFailure(gs[k]);
        var failures := Failures(ApproximateOf(distinct));
        TermWithin(space, event, failures, i);
        ScaledByOne(UnionBound(failures));
        SameClaim(space, event, UnionBound(failures), g.failure);
      }
    }
  }
}
