/**
 How often each node of a plan is computed
 (crates/cost/src/execution_demand.rs:336-452): the walks say what consumes a
 node and which queries reach it, the schedules how often those run. The window
 an ingestion-time node is refreshed in is given.
 */
module Computations {
  import opened EvaluationRates
  import opened ExecutionWalks
  import opened FiniteSums
  import opened PlanDags
  import opened Results
  import opened Schedules

  /** One computation of a node that is not materialized: for a query, for a node, or for every node refreshed together. */
  datatype Run = QueryRun(query: nat) | NodeRun(node: nat) | WindowRun(window: nat)

  /** The rate of each query and each materialized node, and the refresh window of each ingestion-time one, if bounded. */
  datatype Rates = Rates(queries: seq<real>, nodes: map<nat, real>, windows: map<nat, Option<nat>>)

  function RunOf(c: Consumer, rates: Rates): Run {
    match c
    case Query(q) => QueryRun(q)
    case Materialized(node) =>
      if node in rates.windows && rates.windows[node].Some? then WindowRun(rates.windows[node].value) else NodeRun(node)
  }

  /** The runs the first `n` consumers make of the node, each once. */
  ghost function RunsOf(consumers: seq<Consumer>, rates: Rates, n: nat): set<Run>
    requires n <= |consumers|
  {
    if n == 0 then {} else RunsOf(consumers, rates, n - 1) + {RunOf(consumers[n - 1], rates)}
  }

  lemma {:induction false} RunsAre(consumers: seq<Consumer>, rates: Rates, n: nat, run: Run)
    requires n <= |consumers|
    ensures run in RunsOf(consumers, rates, n) <==> exists i :: 0 <= i < n && RunOf(consumers[i], rates) == run
  {
    hide RunOf;
    if n > 0 { RunsAre(consumers, rates, n - 1, run); }
  }

  /** A window is refreshed once per second. */
  function RunRate(rates: Rates): Run -> real {
    (run: Run) =>
      match run
      case QueryRun(q) => if q < |rates.queries| then rates.queries[q] else 0.0
      case NodeRun(node) => if node in rates.nodes then rates.nodes[node] else 0.0
      case WindowRun(_) => 1.0
  }

  function RateOf(c: Consumer, rates: Rates): real {
    match c
    case Query(q) => if q < |rates.queries| then rates.queries[q] else 0.0
    case Materialized(node) => if node in rates.nodes then rates.nodes[node] else 0.0
  }

  /** Ingestion-time nodes, those with a window, are refreshed every second. */
  predicate IngestionEverySecond(rates: Rates) {
    forall node :: node in rates.windows ==> node in rates.nodes && rates.nodes[node] == 1.0
  }

  predicate DistinctMembers(consumers: seq<Consumer>) {
    forall i, j :: 0 <= i < j < |consumers| ==> consumers[i] != consumers[j]
  }

  /** Consumers refreshed in one window are one run of the node: how many runs there are, and how often they run. */
  method ComputedFor(consumers: seq<Consumer>, rates: Rates) returns (multiplier: nat, perSecond: real)
    requires DistinctMembers(consumers) && IngestionEverySecond(rates)
    ensures multiplier == |RunsOf(consumers, rates, |consumers|)|
    ensures perSecond == SumOver(RunsOf(consumers, rates, |consumers|), RunRate(rates))
  {
    hide SumOver, RunsOf, RunRate, RateOf, DistinctMembers, IngestionEverySecond;
    multiplier, perSecond := 0, 0.0;
    var runs: set<nat> := {};
    NoRuns(consumers, rates);
    for k := 0 to |consumers|
      invariant multiplier == |RunsOf(consumers, rates, k)|
      invariant perSecond == SumOver(RunsOf(consumers, rates, k), RunRate(rates))
      invariant forall w :: w in runs <==> WindowRun(w) in RunsOf(consumers, rates, k)
    {
      var consumer := consumers[k];
      OneMoreRun(consumers, k, rates);
      var repeated := false;
      if consumer.Materialized? && consumer.node in rates.windows && rates.windows[consumer.node].Some? {
        var window := rates.windows[consumer.node].value;
        repeated := window in runs;
        runs := runs + {window};
      }
      if !repeated {
        multiplier := multiplier + 1;
        perSecond := perSecond + RateOf(consumer, rates);
      }
    }
  }

  lemma NoRuns(consumers: seq<Consumer>, rates: Rates)
    ensures RunsOf(consumers, rates, 0) == {} && SumOver(RunsOf(consumers, rates, 0), RunRate(rates)) == 0.0
  {
  }

  lemma OneMoreRun(consumers: seq<Consumer>, k: nat, rates: Rates)
    requires DistinctMembers(consumers) && IngestionEverySecond(rates) && k < |consumers|
    ensures var before, run := RunsOf(consumers, rates, k), RunOf(consumers[k], rates);
      && RunsOf(consumers, rates, k + 1) == before + {run}
      && |before + {run}| == |before| + (if run in before then 0 else 1)
      && (run in before ==> run.WindowRun? && SumOver(before + {run}, RunRate(rates)) == SumOver(before, RunRate(rates)))
      && (run !in before ==>
            SumOver(before + {run}, RunRate(rates)) == SumOver(before, RunRate(rates)) + RateOf(consumers[k], rates))
  {
    var before, run := RunsOf(consumers, rates, k), RunOf(consumers[k], rates);
    RunsAre(consumers, rates, k, run);
    hide SumOver, RunsOf;
    if run in before {
      assert before + {run} == before;
      var i :| 0 <= i < k && RunOf(consumers[i], rates) == run;
      assert consumers[i] != consumers[k];
    } else {
      SumSplit(before + {run}, run, RunRate(rates));
      assert before + {run} - {run} == before;
    }
  }

  /** Refreshing more nodes in one window never computes a node more often: each consumer is a run of its own unless two share one. */
  lemma {:induction false} SharedWindowsSave(consumers: seq<Consumer>, rates: Rates, n: nat)
    requires DistinctMembers(consumers) && IngestionEverySecond(rates) && n <= |consumers|
    ensures |RunsOf(consumers, rates, n)| <= n
    ensures |RunsOf(consumers, rates, n)| == n <==>
      forall i, j :: 0 <= i < j < n ==> RunOf(consumers[i], rates) != RunOf(consumers[j], rates)
  {
    hide *;
    if n > 0 {
      SharedWindowsSave(consumers, rates, n - 1);
      OneMoreRun(consumers, n - 1, rates);
      RunsAre(consumers, rates, n - 1, RunOf(consumers[n - 1], rates));
    } else {
      NoRuns(consumers, rates);
    }
  }

  /** The consumers' own rates added. */
  function RatesAdded(consumers: seq<Consumer>, rates: Rates, n: nat): real
    requires n <= |consumers|
  {
    if n == 0 then 0.0
    else
      RatesAdded(consumers, rates, n - 1) +
      match consumers[n - 1]
      case Query(q) => if q < |rates.queries| then rates.queries[q] else 0.0
      case Materialized(node) => if node in rates.nodes then rates.nodes[node] else 0.0
  }

  /** Consumers in different windows share nothing: their rates add. */
  lemma {:induction false} UnsharedRatesAdd(consumers: seq<Consumer>, rates: Rates, n: nat)
    requires DistinctMembers(consumers) && IngestionEverySecond(rates) && n <= |consumers|
    requires Unshared(consumers, rates, n)
    ensures SumOver(RunsOf(consumers, rates, n), RunRate(rates)) == RatesAdded(consumers, rates, n)
  {
    if n > 0 {
      hide *;
      NewRunAdds(consumers, rates, n - 1);
      UnsharedRatesAdd(consumers, rates, n - 1);
      AddedRate(consumers, rates, n);
    } else {
      NoRuns(consumers, rates);
    }
  }

  lemma AddedRate(consumers: seq<Consumer>, rates: Rates, n: nat)
    requires 0 < n <= |consumers|
    ensures RatesAdded(consumers, rates, n) == RatesAdded(consumers, rates, n - 1) + RateOf(consumers[n - 1], rates)
  {
  }

  /** No two of the first `n` are refreshed in one window. */
  predicate Unshared(consumers: seq<Consumer>, rates: Rates, n: nat)
    requires n <= |consumers|
  {
    n == 0 || (Unshared(consumers, rates, n - 1) && forall i :: 0 <= i < n - 1 ==> !SameWindow(consumers[i], consumers[n - 1], rates))
  }

  lemma NewRunAdds(consumers: seq<Consumer>, rates: Rates, k: nat)
    requires DistinctMembers(consumers) && IngestionEverySecond(rates) && k < |consumers| && Unshared(consumers, rates, k + 1)
    ensures Unshared(consumers, rates, k)
    ensures SumOver(RunsOf(consumers, rates, k + 1), RunRate(rates))
         == SumOver(RunsOf(consumers, rates, k), RunRate(rates)) + RateOf(consumers[k], rates)
  {
    NewRun(consumers, rates, k);
    hide SumOver, RunsOf, RunRate, RateOf, SameWindow;
    OneMoreRun(consumers, k, rates);
  }

  lemma NewRun(consumers: seq<Consumer>, rates: Rates, k: nat)
    requires DistinctMembers(consumers) && k < |consumers|
    requires forall i :: 0 <= i < k ==> !SameWindow(consumers[i], consumers[k], rates)
    ensures RunOf(consumers[k], rates) !in RunsOf(consumers, rates, k)
  {
    RunsAre(consumers, rates, k, RunOf(consumers[k], rates));
    forall i | 0 <= i < k ensures RunOf(consumers[i], rates) != RunOf(consumers[k], rates) {
      assert consumers[i] != consumers[k];
    }
    hide RunOf, RunsOf, SameWindow;
  }

  /** Two nodes refreshed in one window of known length. */
  predicate SameWindow(c: Consumer, d: Consumer, rates: Rates) {
    && c.Materialized? && d.Materialized? && c.node in rates.windows && d.node in rates.windows
    && rates.windows[c.node].Some? && rates.windows[c.node] == rates.windows[d.node]
  }

  // ------------------------------------------------- the whole plan's map

  /** The workload's side of it: each query's recurrence and range, the batch's horizon, and rates given for roots. */
  datatype Demand = Demand(recurrences: seq<Recurrence>, ranges: seq<Option<RangeEvaluation>>, horizonSeconds: real,
                           rootRates: seq<real>)
  {
    function RangeOf(query: nat): Option<RangeEvaluation> {
      if query < |ranges| then ranges[query] else None
    }

    predicate InRange() {
      horizonSeconds > 0.0 && forall q :: 0 <= q < |ranges| && ranges[q].Some? ==> ranges[q].value.stepMs > 0
    }
  }

  /** Those of `queries` with a recurrence, as readers; a request builds a kept chain once however many steps it evaluates. */
  function ReadersOf(demand: Demand, queries: seq<nat>, perRequest: bool): seq<Reader> {
    if queries == [] then []
    else
      var last := queries[|queries| - 1];
      ReadersOf(demand, queries[..|queries| - 1], perRequest)
        + (if last < |demand.recurrences|
           then [Reader(demand.recurrences[last], if perRequest then None else demand.RangeOf(last))] else [])
  }

  /** Each query is one reader, with its own range unless it builds a kept chain; a query without a recurrence is none. */
  lemma {:induction false} ReadersAreQueries(demand: Demand, queries: seq<nat>, perRequest: bool)
    requires forall k :: 0 <= k < |queries| ==> queries[k] < |demand.recurrences|
    ensures |ReadersOf(demand, queries, perRequest)| == |queries|
    ensures forall k :: 0 <= k < |queries| ==>
      && ReadersOf(demand, queries, perRequest)[k].recurrence == demand.recurrences[queries[k]]
      && ReadersOf(demand, queries, perRequest)[k].range
         == if !perRequest && queries[k] < |demand.ranges| then demand.ranges[queries[k]] else None
  {
    if queries != [] { ReadersAreQueries(demand, queries[..|queries| - 1], perRequest); }
  }

  lemma {:induction false} StepsPositive(demand: Demand, queries: seq<nat>, perRequest: bool)
    requires demand.InRange()
    ensures PositiveSteps(ReadersOf(demand, queries, perRequest))
  {
    if queries != [] { StepsPositive(demand, queries[..|queries| - 1], perRequest); }
  }

  /** The readers of a materialized node: the queries with any path to it. */
  ghost function NodeReaders(dag: PlanDag, demand: Demand, node: PlanNode): seq<Reader> {
    ReadersOf(demand, QueriesReaching(dag, dag.QueryCount(), node.id), node.keptAcrossEvaluations)
  }

  ghost predicate Countable(readers: seq<Reader>) {
    AllValid(readers) && CountsFit(readers)
  }

  /** Every rate the plan needs can be formed. */
  ghost predicate Computable(dag: PlanDag, demand: Demand) {
    && (forall i :: 0 <= i < |dag.nodes| ==> NodeComputable(dag, demand, dag.nodes[i]))
    && (forall q :: 0 <= q < dag.QueryCount() ==> QueryComputable(demand, q))
  }

  ghost predicate NodeComputable(dag: PlanDag, demand: Demand, node: PlanNode) {
    node.materialized && !node.atIngestion ==> Countable(NodeReaders(dag, demand, node))
  }

  ghost predicate QueryComputable(demand: Demand, query: nat) {
    query >= |demand.rootRates| ==> Countable(ReadersOf(demand, [query], false))
  }

  /** Once per second at ingestion time, else at the combined rate of the queries reaching the node. */
  ghost function NodeRate(dag: PlanDag, demand: Demand, node: PlanNode): real
    requires demand.InRange() && node.materialized && NodeComputable(dag, demand, node)
  {
    if node.atIngestion then 1.0 else DemandRate(NodeReaders(dag, demand, node), demand.horizonSeconds)
  }

  ghost function QueryRate(demand: Demand, query: nat): real
    requires demand.InRange() && QueryComputable(demand, query)
  {
    if query < |demand.rootRates| then demand.rootRates[query]
    else DemandRate(ReadersOf(demand, [query], false), demand.horizonSeconds)
  }

  /** The windows are those of the nodes refreshed at ingestion. */
  ghost predicate WindowsOf(dag: PlanDag, windows: map<nat, Option<nat>>) {
    forall id :: id in windows <==>
      exists i :: 0 <= i < |dag.nodes| && dag.nodes[i].id == id && dag.nodes[i].materialized && dag.nodes[i].atIngestion
  }

  /** The rates the runs are charged at. */
  ghost predicate AreRates(dag: PlanDag, demand: Demand, windows: map<nat, Option<nat>>, rates: Rates)
    requires demand.InRange() && Computable(dag, demand)
  {
    && rates.windows == windows
    && |rates.queries| == dag.QueryCount()
    && (forall q :: 0 <= q < |rates.queries| ==> rates.queries[q] == QueryRate(demand, q))
    && rates.nodes.Keys == MaterializedIds(dag.nodes)
    && (forall i :: 0 <= i < |dag.nodes| && dag.nodes[i].materialized ==>
          dag.nodes[i].id in rates.nodes && rates.nodes[dag.nodes[i].id] == NodeRate(dag, demand, dag.nodes[i]))
  }

  /** The distinct runs that compute a node: one per consumer, except that consumers refreshed in one window share theirs. */
  ghost predicate AreRuns(dag: PlanDag, rates: Rates, id: nat, runs: set<Run>) {
    forall run :: run in runs <==> exists c :: Consumes(dag, c, id) && RunOf(c, rates) == run
  }

  datatype Times = Times(multiplier: nat, perSecond: real)

  /** How often one node is computed. */
  ghost predicate IsTimes(dag: PlanDag, rates: Rates, node: PlanNode, times: Times) {
    if node.materialized then node.id in rates.nodes && times == Times(1, rates.nodes[node.id])
    else exists runs :: AreRuns(dag, rates, node.id, runs) && times == Times(|runs|, SumOver(runs, RunRate(rates)))
  }

  /** Every node of the plan, and no other, with how often it is computed. */
  ghost predicate AreTimes(dag: PlanDag, rates: Rates, times: map<nat, Times>) {
    && times.Keys == Ids(dag)
    && forall i :: 0 <= i < |dag.nodes| ==> IsTimes(dag, rates, dag.nodes[i], times[dag.nodes[i].id])
  }

  method ReadersAre(demand: Demand, queries: seq<nat>, perRequest: bool) returns (readers: seq<Reader>)
    ensures readers == ReadersOf(demand, queries, perRequest)
  {
    readers := [];
    for k := 0 to |queries|
      invariant readers == ReadersOf(demand, queries[..k], perRequest)
    {
      assert queries[..k + 1][..k] == queries[..k];
      if queries[k] < |demand.recurrences| {
        readers := readers + [Reader(demand.recurrences[queries[k]], if perRequest then None else demand.RangeOf(queries[k]))];
      }
    }
    assert queries[..|queries|] == queries;
  }

  /** The rate of each materialized node, unless one cannot be formed. */
  method RatesOfNodes(dag: PlanDag, demand: Demand) returns (r: Result<map<nat, real>, DemandError>)
    requires dag.DistinctIds() && demand.InRange()
    ensures r.Success? <==> forall i :: 0 <= i < |dag.nodes| ==> NodeComputable(dag, demand, dag.nodes[i])
    ensures r.Success? ==> NodeRatesAre(dag, demand, r.value, |dag.nodes|)
  {
    hide AllValid, CountsFit, DemandRate, HasReached, ReadersOf, QueriesReaching, Demand.InRange;
    var reached := ReachedQueries(dag);
    var rates: map<nat, real> := map[];
    for k := 0 to |dag.nodes|
      invariant NodeRatesAre(dag, demand, rates, k)
    {
      var node := dag.nodes[k];
      if node.materialized {
        var rate := 1.0;
        if !node.atIngestion {
          ReachedAt(reached, dag, node.id);
          var readers := ReadersAre(demand, At(reached, node.id), node.keptAcrossEvaluations);
          StepsPositive(demand, At(reached, node.id), node.keptAcrossEvaluations);
          HorizonPositive(demand);
          var formed := EvaluationRate(readers, demand.horizonSeconds);
          if formed.Failure? {
            assert !NodeComputable(dag, demand, dag.nodes[k]);
            return Failure(formed.error);
          }
          rate := formed.value;
        }
        NewNodeRate(dag, demand, rates, k, rate);
        rates := rates[node.id := rate];
      }
    }
    r := Success(rates);
  }

  lemma ReachedAt(reached: map<nat, seq<nat>>, dag: PlanDag, id: nat)
    requires HasReached(reached, dag, dag.QueryCount())
    ensures At(reached, id) == QueriesReaching(dag, dag.QueryCount(), id)
  {
  }

  lemma HorizonPositive(demand: Demand)
    requires demand.InRange()
    ensures demand.horizonSeconds > 0.0
  {
  }

  /** The first `n` nodes' rates, and no other. */
  ghost predicate NodeRatesAre(dag: PlanDag, demand: Demand, rates: map<nat, real>, n: nat)
    requires demand.InRange() && n <= |dag.nodes|
  {
    && (forall id :: id in rates <==> exists i :: 0 <= i < n && dag.nodes[i].materialized && dag.nodes[i].id == id)
    && (forall i :: 0 <= i < n ==> NodeComputable(dag, demand, dag.nodes[i]))
    && (forall i :: 0 <= i < n && dag.nodes[i].materialized ==>
          dag.nodes[i].id in rates && rates[dag.nodes[i].id] == NodeRate(dag, demand, dag.nodes[i]))
  }

  lemma NewNodeRate(dag: PlanDag, demand: Demand, rates: map<nat, real>, k: nat, rate: real)
    requires dag.DistinctIds() && demand.InRange() && k < |dag.nodes| && dag.nodes[k].materialized
    requires NodeRatesAre(dag, demand, rates, k) && NodeComputable(dag, demand, dag.nodes[k])
    requires rate == NodeRate(dag, demand, dag.nodes[k])
    ensures NodeRatesAre(dag, demand, rates[dag.nodes[k].id := rate], k + 1)
  {
    hide NodeComputable, NodeRate, Demand.InRange;
    var grown := rates[dag.nodes[k].id := rate];
    forall id ensures id in grown <==> exists i :: 0 <= i < k + 1 && dag.nodes[i].materialized && dag.nodes[i].id == id {
      if id == dag.nodes[k].id { assert dag.nodes[k].materialized; }
    }
  }

  /** Each query's rate: the one given for its root, else that of its own recurrence. */
  method RatesOfQueries(dag: PlanDag, demand: Demand) returns (r: Result<seq<real>, DemandError>)
    requires demand.InRange()
    ensures r.Success? <==> forall q :: 0 <= q < dag.QueryCount() ==> QueryComputable(demand, q)
    ensures r.Success? ==> |r.value| == dag.QueryCount()
    ensures r.Success? ==> forall q :: 0 <= q < |r.value| ==> r.value[q] == QueryRate(demand, q)
  {
    hide AllValid, CountsFit, DemandRate, ReadersOf, Demand.InRange;
    var rates: seq<real> := [];
    for q := 0 to dag.QueryCount()
      invariant |rates| == q
      invariant forall p :: 0 <= p < q ==> QueryComputable(demand, p) && rates[p] == QueryRate(demand, p)
    {
      var rate;
      if q < |demand.rootRates| {
        rate := demand.rootRates[q];
      } else {
        var readers := ReadersAre(demand, [q], false);
        StepsPositive(demand, [q], false);
        HorizonPositive(demand);
        var formed := EvaluationRate(readers, demand.horizonSeconds);
        if formed.Failure? {
          assert !QueryComputable(demand, q);
          return Failure(formed.error);
        }
        rate := formed.value;
      }
      rates := rates + [rate];
    }
    r := Success(rates);
  }

  /**
   How often each node of a plan is computed: a materialized one once for all
   its readers, any other once per run of what consumes it. It fails exactly
   when some rate cannot be formed.
   */
  method TimesOfNodes(dag: PlanDag, demand: Demand, windows: map<nat, Option<nat>>)
    returns (r: Result<map<nat, Times>, DemandError>)
    requires dag.DistinctIds() && demand.InRange() && WindowsOf(dag, windows)
    ensures r.Success? <==> Computable(dag, demand)
    ensures r.Success? ==> exists rates :: AreRates(dag, demand, windows, rates) && AreTimes(dag, rates, r.value)
  {
    hide AreRates, AreTimes, Demand.InRange, WindowsOf, NodeComputable, QueryComputable, NodeRatesAre, NodeRate, QueryRate,
      ListsReaching;
    var nodeRates := RatesOfNodes(dag, demand);
    if nodeRates.Failure? { return Failure(nodeRates.error); }
    var queryRates := RatesOfQueries(dag, demand);
    if queryRates.Failure? { return Failure(queryRates.error); }
    var rates := Rates(queryRates.value, nodeRates.value, windows);
    RatesFormed(dag, demand, windows, rates);
    var consumers := Consumers(dag);
    var times: map<nat, Times> := map[];
    for k := 0 to |dag.nodes|
      invariant TimesSoFar(dag, rates, times, k)
    {
      var node := dag.nodes[k];
      var ofNode := Times(0, 0.0);
      if node.id in rates.nodes {
        ofNode := Times(1, rates.nodes[node.id]);
        MaterializedTimes(dag, demand, windows, rates, k);
      } else {
        ConsumersDistinct(dag, consumers, node.id);
        EverySecond(dag, demand, windows, rates);
        var multiplier, perSecond := ComputedFor(At(consumers, node.id), rates);
        ofNode := Times(multiplier, perSecond);
        ConsumedTimes(dag, demand, windows, rates, consumers, k, ofNode);
      }
      NewTimes(dag, rates, times, k, ofNode);
      times := times[node.id := ofNode];
    }
    AllTimes(dag, rates, times);
    r := Success(times);
  }

  ghost predicate TimesSoFar(dag: PlanDag, rates: Rates, times: map<nat, Times>, n: nat)
    requires n <= |dag.nodes|
  {
    && (forall id :: id in times <==> exists i :: 0 <= i < n && dag.nodes[i].id == id)
    && forall i :: 0 <= i < n ==> dag.nodes[i].id in times && IsTimes(dag, rates, dag.nodes[i], times[dag.nodes[i].id])
  }

  lemma NewTimes(dag: PlanDag, rates: Rates, times: map<nat, Times>, k: nat, ofNode: Times)
    requires dag.DistinctIds() && k < |dag.nodes| && TimesSoFar(dag, rates, times, k)
    requires IsTimes(dag, rates, dag.nodes[k], ofNode)
    ensures TimesSoFar(dag, rates, times[dag.nodes[k].id := ofNode], k + 1)
  {
    hide IsTimes;
    var grown := times[dag.nodes[k].id := ofNode];
    forall id ensures id in grown <==> exists i :: 0 <= i < k + 1 && dag.nodes[i].id == id {
      if id == dag.nodes[k].id { assert dag.nodes[k].id == id; }
    }
  }

  lemma AllTimes(dag: PlanDag, rates: Rates, times: map<nat, Times>)
    requires TimesSoFar(dag, rates, times, |dag.nodes|)
    ensures AreTimes(dag, rates, times)
  {
    hide IsTimes;
  }

  lemma RatesFormed(dag: PlanDag, demand: Demand, windows: map<nat, Option<nat>>, rates: Rates)
    requires demand.InRange() && Computable(dag, demand)
    requires rates.windows == windows && |rates.queries| == dag.QueryCount()
    requires forall q :: 0 <= q < |rates.queries| ==> rates.queries[q] == QueryRate(demand, q)
    requires NodeRatesAre(dag, demand, rates.nodes, |dag.nodes|)
    ensures AreRates(dag, demand, windows, rates)
  {
    hide NodeComputable, QueryComputable, NodeRate, QueryRate, Demand.InRange;
    forall id ensures id in rates.nodes <==> id in MaterializedIds(dag.nodes) {}
  }

  lemma MaterializedTimes(dag: PlanDag, demand: Demand, windows: map<nat, Option<nat>>, rates: Rates, k: nat)
    requires dag.DistinctIds() && demand.InRange() && Computable(dag, demand) && AreRates(dag, demand, windows, rates)
    requires k < |dag.nodes| && dag.nodes[k].id in rates.nodes
    ensures IsTimes(dag, rates, dag.nodes[k], Times(1, rates.nodes[dag.nodes[k].id]))
  {
    hide NodeComputable, QueryComputable, NodeRate, QueryRate, Demand.InRange;
    var i :| 0 <= i < |dag.nodes| && dag.nodes[i].materialized && dag.nodes[i].id == dag.nodes[k].id;
    assert i == k;
  }

  lemma EverySecond(dag: PlanDag, demand: Demand, windows: map<nat, Option<nat>>, rates: Rates)
    requires demand.InRange() && Computable(dag, demand) && AreRates(dag, demand, windows, rates) && WindowsOf(dag, windows)
    ensures IngestionEverySecond(rates)
  {
    hide NodeComputable, QueryComputable, QueryRate, Demand.InRange, Countable, DemandRate;
    forall node | node in rates.windows ensures node in rates.nodes && rates.nodes[node] == 1.0 {
      var i :| 0 <= i < |dag.nodes| && dag.nodes[i].id == node && dag.nodes[i].materialized && dag.nodes[i].atIngestion;
    }
  }

  lemma ConsumersDistinct(dag: PlanDag, consumers: map<nat, seq<Consumer>>, id: nat)
    requires dag.DistinctIds()
    requires ListsReaching(consumers, AllWalks(dag), dag.edges, MaterializedIds(dag.nodes), |AllWalks(dag)|)
    ensures DistinctMembers(At(consumers, id))
  {
    hide ListsReaching, Consumes;
    ConsumersAreThePathsUp(dag, consumers, id);
  }

  /** The runs of the listed consumers are those of what consumes the node. */
  lemma RunsOfConsumers(dag: PlanDag, rates: Rates, consumers: map<nat, seq<Consumer>>, id: nat)
    requires dag.DistinctIds()
    requires ListsReaching(consumers, AllWalks(dag), dag.edges, MaterializedIds(dag.nodes), |AllWalks(dag)|)
    ensures AreRuns(dag, rates, id, RunsOf(At(consumers, id), rates, |At(consumers, id)|))
  {
    hide *;
    ConsumersAreThePathsUp(dag, consumers, id);
    var cs := At(consumers, id);
    var runs := RunsOf(cs, rates, |cs|);
    forall run ensures run in runs <==> exists c :: Consumes(dag, c, id) && RunOf(c, rates) == run {
      RunsAre(cs, rates, |cs|, run);
      if run in runs {
        var i :| 0 <= i < |cs| && RunOf(cs[i], rates) == run;
        assert cs[i] in cs;
      }
      if c :| Consumes(dag, c, id) && RunOf(c, rates) == run {
        assert c in cs;
        var i :| 0 <= i < |cs| && cs[i] == c;
        assert RunOf(cs[i], rates) == run;
      }
    }
    RunsGiven(dag, rates, id, runs);
  }

  lemma RunsGiven(dag: PlanDag, rates: Rates, id: nat, runs: set<Run>)
    requires forall run :: run in runs <==> exists c :: Consumes(dag, c, id) && RunOf(c, rates) == run
    ensures AreRuns(dag, rates, id, runs)
  {
    hide Consumes, RunOf;
  }

  lemma ConsumedTimes(dag: PlanDag, demand: Demand, windows: map<nat, Option<nat>>, rates: Rates,
                      consumers: map<nat, seq<Consumer>>, k: nat, ofNode: Times)
    requires dag.DistinctIds() && demand.InRange() && Computable(dag, demand) && AreRates(dag, demand, windows, rates)
    requires ListsReaching(consumers, AllWalks(dag), dag.edges, MaterializedIds(dag.nodes), |AllWalks(dag)|)
    requires k < |dag.nodes| && dag.nodes[k].id !in rates.nodes
    requires var cs := At(consumers, dag.nodes[k].id);
      ofNode == Times(|RunsOf(cs, rates, |cs|)|, SumOver(RunsOf(cs, rates, |cs|), RunRate(rates)))
    ensures IsTimes(dag, rates, dag.nodes[k], ofNode)
  {
    hide NodeComputable, QueryComputable, NodeRate, QueryRate, Demand.InRange, ListsReaching, AreRuns, RunsOf, SumOver, RunRate;
    RunsOfConsumers(dag, rates, consumers, dag.nodes[k].id);
    assert !dag.nodes[k].materialized;
  }
}
