/**
 The failure probability each summary is sized for
 (crates/accuracy/src/sizing.rs:141-177 and 242-278; the values a target covers,
 crates/types/src/ir/properties/accuracy.rs:121-173).
 */
module Sizing {
  import opened FiniteSums
  import LipschitzRules
  import opened Outcomes
  import opened RealBounds
  import opened Results

  /** The values one statement covers at once. */
  datatype Scope = PerValue | WholeResult | GroupsHolding(share: real)

  const ROUNDING_TOLERANCE: real := 1.0 / 1000000000.0

  /** How many values the scope covers at most; `g` is how many the result returns. */
  function MaxValuesCovered(scope: Scope, g: Option<nat>): Option<nat> {
    match scope
    case PerValue => Some(1)
    case WholeResult => g
    case GroupsHolding(share) =>
      if !(0.0 < share <= 1.0) then None
      else
        var qualifying := Qualifying(share);
        Some(if g.Some? && g.value < qualifying then g.value else qualifying)
  }

  function Qualifying(share: real): nat
    requires 0.0 < share <= 1.0
  {
    ReciprocalPositive(share);
    ((1.0 / share) * (1.0 + ROUNDING_TOLERANCE)).Floor
  }

  lemma ReciprocalPositive(share: real)
    requires 0.0 < share
    ensures (1.0 / share) * (1.0 + ROUNDING_TOLERANCE) >= 1.0 / share > 0.0
  {
    var i := 1.0 / share;
    assert i > 0.0;
    assert i * (1.0 + ROUNDING_TOLERANCE) == i + i * ROUNDING_TOLERANCE;
    TimesPositive(i, ROUNDING_TOLERANCE);
  }

  /** No more groups than that can each hold the share of the records. */
  lemma GroupsHoldingShareAreFew(records: seq<real>, total: real, share: real)
    requires 0.0 < share <= 1.0 && total > 0.0 && SumSeq(records) <= total
    requires forall i :: 0 <= i < |records| ==> records[i] >= share * total
    ensures |records| <= Qualifying(share)
  {
    hide *;
    var least := share * total;
    SumAtLeast(records, least);
    FewShares(|records| as real, share, total, least);
    FloorOfReciprocal(|records|, share);
  }

  lemma FloorOfReciprocal(n: nat, share: real)
    requires 0.0 < share <= 1.0 && n as real <= 1.0 / share
    ensures n <= Qualifying(share)
  {
    ReciprocalPositive(share);
    var bound := (1.0 / share) * (1.0 + ROUNDING_TOLERANCE);
    hide ROUNDING_TOLERANCE;
    assert n as real <= bound;
    assert bound < (bound.Floor + 1) as real;
  }

  lemma {:induction false} SumAtLeast(xs: seq<real>, least: real)
    requires forall i :: 0 <= i < |xs| ==> xs[i] >= least
    ensures SumSeq(xs) >= |xs| as real * least
  {
    if xs != [] {
      var n := |xs| - 1;
      SumAtLeast(xs[..n], least);
      assert |xs| as real == n as real + 1.0;
      OneMore(n as real, least);
    }
  }

  lemma FewShares(n: real, share: real, total: real, least: real)
    requires least == share * total && n * least <= total && share > 0.0 && total > 0.0
    ensures n <= 1.0 / share
  {
    var i := 1.0 / share;
    assert i * share == 1.0;
    Commute(n, share, total);
    CancelPositive(n * share, 1.0, total);
    CancelPositive(n, i, share);
  }

  /** A query: its target, the approximate inputs of its value, each once, and how many values it returns. */
  datatype Query = Query(exact: bool, delta: Option<real>, scope: Scope, inputs: seq<nat>, values: Option<nat>)

  /** `delta / (n * V)`, when the target has a positive delta and covers a known number of values. */
  function PerInputFailureProbability(q: Query): (r: Option<real>)
    ensures r.Some? ==> r.value > 0.0
  {
    var values := MaxValuesCovered(q.scope, q.values);
    if q.exact || q.delta.None? || q.delta.value <= 0.0 || values.None? || values.value == 0 then None
    else
      var parts := Parts(q) * values.value as real;
      PartsPositive(Parts(q), values.value as real, q.delta.value);
      Some(q.delta.value / parts)
  }

  function Parts(q: Query): real {
    if |q.inputs| <= 1 then 1.0 else |q.inputs| as real
  }

  lemma PartsPositive(n: real, v: real, delta: real)
    requires n > 0.0 && v > 0.0 && delta > 0.0
    ensures n * v > 0.0
    ensures delta / (n * v) > 0.0
  {
    TimesPositive(n, v);
    var d := n * v;
    var q := delta / d;
    assert q * d == delta;
    if q <= 0.0 { Times(d, q, 0.0); }
  }

  // ----------------------------------------------- the smallest demand

  /** Query `i` demands a failure probability of summary `state`. */
  predicate Demands(queries: seq<Query>, i: nat, state: nat) {
    i < |queries| && PerInputFailureProbability(queries[i]).Some? && state in queries[i].inputs
  }

  function Demand(queries: seq<Query>, i: nat): real
    requires i < |queries|
  {
    var p := PerInputFailureProbability(queries[i]);
    if p.Some? then p.value else 0.0
  }

  /** Each demanded summary has the smallest demand any query makes of it. */
  ghost predicate IsSmallestDemand(queries: seq<Query>, required: map<nat, real>) {
    && (forall state :: state in required ==>
          exists i :: 0 <= i < |queries| && Demands(queries, i, state) && required[state] == Demand(queries, i))
    && (forall i, state :: 0 <= i < |queries| && Demands(queries, i, state) ==>
          state in required && required[state] <= Demand(queries, i))
  }

  /** The nested loops over queries and their inputs. */
  method RequiredProbabilities(queries: seq<Query>) returns (required: map<nat, real>)
    ensures IsSmallestDemand(queries, required)
  {
    required := map[];
    for i := 0 to |queries|
      invariant IsSmallestDemand(queries[..i], required)
    {
      required := AddDemands(queries, i, required);
    }
    assert queries[..|queries|] == queries;
  }

  method AddDemands(queries: seq<Query>, i: nat, before: map<nat, real>) returns (required: map<nat, real>)
    requires i < |queries| && IsSmallestDemand(queries[..i], before)
    ensures IsSmallestDemand(queries[..i + 1], required)
  {
    hide PerInputFailureProbability;
    var p := PerInputFailureProbability(queries[i]);
    required := before;
    if p.None? {
      NoNewDemand(queries, i, required);
      return;
    }
    var inputs := queries[i].inputs;
    for k := 0 to |inputs|
      invariant PartlyAdded(before, inputs[..k], p.value, required)
    {
      var state := inputs[k];
      var entry := if state in required then required[state] else p.value;
      ghost var was := required;
      required := required[state := if p.value < entry then p.value else entry];
      OneAdded(before, inputs, k, p.value, was, required);
    }
    assert inputs[..|inputs|] == inputs;
    AllAdded(queries, i, before, required);
  }

  /** The demands so far, with `p` demanded of `states` too. */
  ghost predicate PartlyAdded(before: map<nat, real>, states: seq<nat>, p: real, required: map<nat, real>) {
    && (forall s :: s in required <==> s in before || s in states)
    && forall s :: s in required ==>
         required[s] == if s !in states then before[s] else if s in before && before[s] <= p then before[s] else p
  }

  lemma OneAdded(before: map<nat, real>, inputs: seq<nat>, k: nat, p: real, was: map<nat, real>, now: map<nat, real>)
    requires k < |inputs| && PartlyAdded(before, inputs[..k], p, was)
    requires var entry := if inputs[k] in was then was[inputs[k]] else p;
      now == was[inputs[k] := if p < entry then p else entry]
    ensures PartlyAdded(before, inputs[..k + 1], p, now)
  {
    assert inputs[..k + 1] == inputs[..k] + [inputs[k]];
  }

  lemma NoNewDemand(queries: seq<Query>, i: nat, required: map<nat, real>)
    requires i < |queries| && IsSmallestDemand(queries[..i], required) && PerInputFailureProbability(queries[i]).None?
    ensures IsSmallestDemand(queries[..i + 1], required)
  {
    hide PerInputFailureProbability;
    var earlier, later := queries[..i], queries[..i + 1];
    forall j, state | 0 <= j <= i ensures Demands(later, j, state) == (j < i && Demands(earlier, j, state)) {}
  }

  lemma AllAdded(queries: seq<Query>, i: nat, before: map<nat, real>, required: map<nat, real>)
    requires i < |queries| && IsSmallestDemand(queries[..i], before)
    requires PerInputFailureProbability(queries[i]).Some?
    requires PartlyAdded(before, queries[i].inputs, PerInputFailureProbability(queries[i]).value, required)
    ensures IsSmallestDemand(queries[..i + 1], required)
  {
    hide PerInputFailureProbability;
    var earlier, now := queries[..i], queries[..i + 1];
    var p := PerInputFailureProbability(queries[i]).value;
    forall state | state in required
      ensures exists j :: 0 <= j < |now| && Demands(now, j, state) && required[state] == Demand(now, j)
    {
      if state in before && required[state] == before[state] {
        var j :| 0 <= j < |earlier| && Demands(earlier, j, state) && before[state] == Demand(earlier, j);
        assert Demands(now, j, state) && Demand(now, j) == Demand(earlier, j);
      } else {
        assert Demands(now, i, state) && Demand(now, i) == p;
      }
    }
    forall j, state | 0 <= j < |now| && Demands(now, j, state)
      ensures state in required && required[state] <= Demand(now, j)
    {
      if j < i { assert Demands(earlier, j, state) && Demand(now, j) == Demand(earlier, j); }
    }
  }

  // -------------------------------------------- the target over its scope

  function RequiredOf(inputs: seq<nat>, required: map<nat, real>): seq<real> {
    seq(|inputs|, k requires 0 <= k < |inputs| => if inputs[k] in required then required[inputs[k]] else 0.0)
  }

  lemma {:induction false} SumAtMost(xs: seq<real>, most: real)
    requires forall i :: 0 <= i < |xs| ==> xs[i] <= most
    ensures SumSeq(xs) <= |xs| as real * most
  {
    if xs != [] {
      var n := |xs| - 1;
      SumAtMost(xs[..n], most);
      assert |xs| as real == n as real + 1.0;
      OneMore(n as real, most);
    }
  }

  /**
   Over its inputs and the values its scope covers, what a query's summaries may
   fail is at most its delta, those it shares with stricter queries included.
   */
  lemma TargetIsMet(queries: seq<Query>, required: map<nat, real>, i: nat)
    requires IsSmallestDemand(queries, required) && i < |queries| && PerInputFailureProbability(queries[i]).Some?
    ensures MaxValuesCovered(queries[i].scope, queries[i].values).Some? && queries[i].delta.Some?
    ensures forall k :: 0 <= k < |queries[i].inputs| ==> queries[i].inputs[k] in required
    ensures MaxValuesCovered(queries[i].scope, queries[i].values).value as real * SumSeq(RequiredOf(queries[i].inputs, required))
         <= queries[i].delta.value
  {
    hide *;
    var q := queries[i];
    var p := PerInputFailureProbability(q).value;
    var shares := RequiredOf(q.inputs, required);
    InputsRequired(queries, required, i);
    SumAtMost(shares, p);
    SharesAddUp(q);
    Stack(MaxValuesCovered(q.scope, q.values).value as real, SumSeq(shares), |q.inputs| as real, p, q.delta.value);
  }

  /** A demand is made exactly for a positive delta over a known number of values. */
  lemma DemandGivenIff(q: Query)
    ensures PerInputFailureProbability(q).Some? <==>
      (&& !q.exact && q.delta.Some? && q.delta.value > 0.0
       && MaxValuesCovered(q.scope, q.values).Some? && MaxValuesCovered(q.scope, q.values).value > 0)
  {
  }

  /** A query alone uses up its whole delta: nothing is left over. */
  lemma TargetIsUsedUp(q: Query, required: map<nat, real>)
    requires IsSmallestDemand([q], required) && PerInputFailureProbability(q).Some? && q.inputs != []
    ensures MaxValuesCovered(q.scope, q.values).Some? && q.delta.Some?
    ensures MaxValuesCovered(q.scope, q.values).value as real * SumSeq(RequiredOf(q.inputs, required)) == q.delta.value
  {
    hide *;
    LoneDemand(q, required);
    LoneShares(q);
    SumEqual(RequiredOf(q.inputs, required), PerInputFailureProbability(q).value);
  }

  lemma LoneDemand(q: Query, required: map<nat, real>)
    requires IsSmallestDemand([q], required) && PerInputFailureProbability(q).Some?
    ensures |RequiredOf(q.inputs, required)| == |q.inputs|
    ensures forall k :: 0 <= k < |q.inputs| ==> RequiredOf(q.inputs, required)[k] == PerInputFailureProbability(q).value
  {
    hide PerInputFailureProbability;
    assert [q][0] == q;
    forall k | 0 <= k < |q.inputs| ensures RequiredOf(q.inputs, required)[k] == PerInputFailureProbability(q).value {
      assert Demands([q], 0, q.inputs[k]);
    }
  }

  lemma LoneShares(q: Query)
    requires PerInputFailureProbability(q).Some? && q.inputs != []
    ensures MaxValuesCovered(q.scope, q.values).Some? && q.delta.Some?
    ensures MaxValuesCovered(q.scope, q.values).value as real * (|q.inputs| as real * PerInputFailureProbability(q).value)
         == q.delta.value
  {
    var v := MaxValuesCovered(q.scope, q.values).value as real;
    PartsPositive(Parts(q), v, q.delta.value);
    assert Parts(q) == |q.inputs| as real;
    WholeOfShares(v, Parts(q), q.delta.value);
  }

  lemma WholeOfShares(v: real, n: real, delta: real)
    requires n * v > 0.0
    ensures v * (n * (delta / (n * v))) == delta
  {
    var parts := n * v;
    var p := delta / parts;
    assert p * parts == delta;
    Commute(v, n, p);
    assert v * (n * p) == (n * v) * p;
  }

  /** So many groups may each hold an equal share, and no more are counted. */
  lemma EqualSharesQualify(n: nat)
    requires 1 <= n < 1000000000
    ensures 0.0 < 1.0 / n as real <= 1.0 && Qualifying(1.0 / n as real) == n
  {
    var share := 1.0 / n as real;
    assert share * n as real == 1.0;
    assert 0.0 < share <= 1.0;
    assert 1.0 / share == n as real by { ReciprocalOf(share, n as real); }
    var bound := n as real * (1.0 + ROUNDING_TOLERANCE);
    assert n as real <= bound < n as real + 1.0;
  }

  lemma ReciprocalOf(share: real, n: real)
    requires share * n == 1.0 && share > 0.0
    ensures 1.0 / share == n
  {
    var i := 1.0 / share;
    assert i * share == 1.0;
    assert (i - n) * share == 0.0;
  }

  lemma {:induction false} SumEqual(xs: seq<real>, each: real)
    requires forall i :: 0 <= i < |xs| ==> xs[i] == each
    ensures SumSeq(xs) == |xs| as real * each
  {
    if xs != [] {
      var n := |xs| - 1;
      SumEqual(xs[..n], each);
      assert |xs| as real == n as real + 1.0;
      OneMore(n as real, each);
    }
  }

  lemma InputsRequired(queries: seq<Query>, required: map<nat, real>, i: nat)
    requires IsSmallestDemand(queries, required) && i < |queries| && PerInputFailureProbability(queries[i]).Some?
    ensures |RequiredOf(queries[i].inputs, required)| == |queries[i].inputs|
    ensures forall k :: 0 <= k < |queries[i].inputs| ==> queries[i].inputs[k] in required
    ensures forall k :: 0 <= k < |queries[i].inputs| ==>
      RequiredOf(queries[i].inputs, required)[k] <= PerInputFailureProbability(queries[i]).value
  {
    hide PerInputFailureProbability;
    forall k | 0 <= k < |queries[i].inputs|
      ensures queries[i].inputs[k] in required
          && required[queries[i].inputs[k]] <= PerInputFailureProbability(queries[i]).value
    {
      assert Demands(queries, i, queries[i].inputs[k]);
    }
  }

  lemma SharesAddUp(q: Query)
    requires PerInputFailureProbability(q).Some?
    ensures MaxValuesCovered(q.scope, q.values).Some? && q.delta.Some?
    ensures var v := MaxValuesCovered(q.scope, q.values).value as real;
      v >= 0.0 && v * (|q.inputs| as real * PerInputFailureProbability(q).value) <= q.delta.value
  {
    var v := MaxValuesCovered(q.scope, q.values).value as real;
    var p, n := PerInputFailureProbability(q).value, |q.inputs| as real;
    var parts := Parts(q) * v;
    PartsPositive(Parts(q), v, q.delta.value);
    assert p * parts == q.delta.value;
    assert n <= Parts(q);
    hide *;
    Rearranged(v, n, p, Parts(q), q.delta.value);
  }

  lemma Rearranged(v: real, n: real, p: real, parts: real, delta: real)
    requires v >= 0.0 && n <= parts && p > 0.0 && p * (parts * v) == delta
    ensures v * (n * p) <= delta
  {
    Times(p, n, parts);
    assert n * p == p * n && parts * p == p * parts;
    Times(v, n * p, parts * p);
    Commute(p, parts, v);
    assert v * (parts * p) == (p * parts) * v;
  }

  lemma Stack(v: real, sum: real, n: real, p: real, delta: real)
    requires v >= 0.0 && sum <= n * p && v * (n * p) <= delta
    ensures v * sum <= delta
  {
    Times(v, sum, n * p);
  }

  /**
   As outcomes: when each input fails each covered value no more often than it is
   required to, any value of the scope fails no more often than the target allows.
   */
  lemma ScopeFailsWithinTarget(space: Space, q: Query, required: map<nat, real>, queries: seq<Query>, i: nat,
                               failures: seq<set<nat>>)
    requires IsSpace(space) && IsSmallestDemand(queries, required) && i < |queries| && queries[i] == q
    requires PerInputFailureProbability(q).Some?
    requires MaxValuesCovered(q.scope, q.values).Some? && |failures| <= MaxValuesCovered(q.scope, q.values).value
    requires forall k :: 0 <= k < |q.inputs| ==> q.inputs[k] in required
    requires forall j :: 0 <= j < |failures| ==> FailsWithin(space, failures[j], q.inputs, required)
    ensures Weight(space, UnionOfAll(failures)) <= q.delta.value
  {
    hide *;
    TargetIsMet(queries, required, i);
    var each := SumSeq(RequiredOf(q.inputs, required));
    forall j | 0 <= j < |failures| ensures Weight(space, failures[j]) <= each {
      FailsWithinSum(space, failures[j], q.inputs, required);
    }
    EachAtMost(space, failures, each);
    RequiredNotNegative(queries, required, q.inputs);
    MoreRows(|failures| as real, MaxValuesCovered(q.scope, q.values).value as real, each);
  }

  /** One value's failure: the union of its inputs', each within its requirement. */
  ghost predicate FailsWithin(space: Space, failure: set<nat>, inputs: seq<nat>, required: map<nat, real>)
    requires forall k :: 0 <= k < |inputs| ==> inputs[k] in required
  {
    exists events: seq<set<nat>> ::
      |events| == |inputs| && failure == UnionOfAll(events)
      && forall k :: 0 <= k < |inputs| ==> Weight(space, events[k]) <= required[inputs[k]]
  }

  lemma FailsWithinSum(space: Space, failure: set<nat>, inputs: seq<nat>, required: map<nat, real>)
    requires IsSpace(space)
    requires forall k :: 0 <= k < |inputs| ==> inputs[k] in required
    requires FailsWithin(space, failure, inputs, required)
    ensures Weight(space, failure) <= SumSeq(RequiredOf(inputs, required))
  {
    var events: seq<set<nat>> :| |events| == |inputs| && failure == UnionOfAll(events)
      && forall k :: 0 <= k < |inputs| ==> Weight(space, events[k]) <= required[inputs[k]];
    UnionAtMostSum(space, events, RequiredOf(inputs, required));
  }

  lemma {:induction false} UnionAtMostSum(space: Space, events: seq<set<nat>>, most: seq<real>)
    requires IsSpace(space) && |events| == |most|
    requires forall k :: 0 <= k < |events| ==> Weight(space, events[k]) <= most[k]
    ensures Weight(space, UnionOfAll(events)) <= SumSeq(most)
  {
    hide Weight, IsSpace;
    if events == [] {
      LipschitzRules.NothingWeighs(space);
    } else {
      var n := |events| - 1;
      UnionAtMostSum(space, events[..n], most[..n]);
      LipschitzRules.UnionAppended(events[..n], events[n]);
      assert events[..n] + [events[n]] == events;
      WeightOfUnion(space, UnionOfAll(events[..n]), events[n]);
    }
  }

  lemma RequiredNotNegative(queries: seq<Query>, required: map<nat, real>, inputs: seq<nat>)
    requires IsSmallestDemand(queries, required)
    requires forall k :: 0 <= k < |inputs| ==> inputs[k] in required
    ensures SumSeq(RequiredOf(inputs, required)) >= 0.0
  {
    var shares := RequiredOf(inputs, required);
    forall k | 0 <= k < |shares| ensures shares[k] >= 0.0 {
      var i :| 0 <= i < |queries| && Demands(queries, i, inputs[k]) && required[inputs[k]] == Demand(queries, i);
    }
    SumAtLeast(shares, 0.0);
  }
}
