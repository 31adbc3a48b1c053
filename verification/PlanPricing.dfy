/**
 Pricing a plan from its DAG and its workload (crates/cost/src/usage.rs:54-330):
 the walks and the schedules give what the charges depend on.
 */
module PlanPricing {
  import opened Computations
  import opened EvaluationRates
  import opened ExecutionWalks
  import opened PlanCosting
  import opened PlanDags
  import opened PlanLatencies
  import opened Results
  import opened Schedules

  const NO_RATE := "no rate"

  /** The demand rate of a query alone, when it can be formed: its requests', or its evaluations'. */
  ghost predicate IsRate(demand: Demand, query: nat, perRequest: bool, rate: Result<real, string>)
    requires demand.InRange()
  {
    && (rate.Success? <==> Countable(ReadersOf(demand, [query], perRequest)))
    && (rate.Success? ==> rate.value == DemandRate(ReadersOf(demand, [query], perRequest), demand.horizonSeconds))
  }

  method FormRates(demand: Demand, queries: nat, perRequest: bool) returns (rates: seq<Result<real, string>>)
    requires demand.InRange()
    ensures |rates| == queries && forall q :: 0 <= q < queries ==> IsRate(demand, q, perRequest, rates[q])
  {
    hide AllValid, CountsFit, DemandRate, ReadersOf, Demand.InRange;
    rates := [];
    for q := 0 to queries
      invariant |rates| == q && forall p :: 0 <= p < q ==> IsRate(demand, p, perRequest, rates[p])
    {
      var readers := ReadersAre(demand, [q], perRequest);
      StepsPositive(demand, [q], perRequest);
      HorizonPositive(demand);
      var formed := EvaluationRate(readers, demand.horizonSeconds);
      rates := rates + [if formed.Success? then Success(formed.value) else Failure(NO_RATE)];
    }
  }

  /** What the work of each node takes, and merging one state. */
  datatype WorkMs = WorkMs(perNode: map<nat, real>, merges: map<nat, real>, formulaMerge: real)

  /** The runtime's fixed time per request, and the time of one operation. */
  datatype Request = Request(evaluationMs: real, msPerCpuOp: real)

  /** A query's whole latency: its walk's work, the compaction it waits for, and the request itself. */
  ghost predicate IsTotal(dag: PlanDag, work: WorkMs, request: Request, reached: set<nat>, ms: real) {
    exists latency ::
      && IsLatency(latency, reached, NodeMap(dag.nodes), work.perNode,
                   CompactionOf(dag, NodeMap(dag.nodes), work.perNode, work.merges, work.formulaMerge))
      && ms == latency.queryMs + (if request.evaluationMs > 0.0 then request.evaluationMs else 0.0) + latency.compactionMs
  }

  /** The requests of the plan's queries: where each starts, and how often it asks. */
  ghost predicate AreRequests(dag: PlanDag, demand: Demand, request: Request, requests: Requests)
    requires demand.InRange()
  {
    && requests.evaluationMs == request.evaluationMs && requests.msPerCpuOp == request.msPerCpuOp
    && |requests.starts| == |requests.rates| == dag.QueryCount()
    && (forall q :: 0 <= q < dag.QueryCount() ==> requests.starts[q] == StartOf(dag, q))
    && (forall q :: 0 <= q < dag.QueryCount() ==> IsRate(demand, q, true, requests.rates[q]))
  }

  /** How long and how often everything runs: what each query reaches, its latency, its rate, each node's, and its consumers. */
  ghost predicate ArePlanRuns(dag: PlanDag, demand: Demand, windows: map<nat, Option<nat>>, work: WorkMs, request: Request,
                              runs: Runs)
    requires demand.InRange() && Computable(dag, demand)
  {
    && |runs.reach| == |runs.latencies| == |runs.rates| == dag.QueryCount()
    && (forall q :: 0 <= q < dag.QueryCount() ==> IsReach(dag, StartOf(dag, q), NodeMap(dag.nodes), runs.reach[q]))
    && (forall q :: 0 <= q < dag.QueryCount() ==> IsTotal(dag, work, request, runs.reach[q], runs.latencies[q]))
    && (forall q :: 0 <= q < dag.QueryCount() ==> IsRate(demand, q, false, runs.rates[q]))
    && (forall id :: id in runs.consumers <==> exists c :: Consumes(dag, c, id))
    && (forall id, c :: id in runs.consumers ==> (c in runs.consumers[id] <==> Consumes(dag, c, id)))
    && ArePerSecond(dag, demand, windows, runs.perSecond)
  }

  /** The executions per second of every node of the plan. */
  ghost predicate ArePerSecond(dag: PlanDag, demand: Demand, windows: map<nat, Option<nat>>, perSecond: map<nat, real>)
    requires demand.InRange() && Computable(dag, demand)
  {
    exists rates: Rates, times: map<nat, Times> ::
      && AreRates(dag, demand, windows, rates) && AreTimes(dag, rates, times)
      && perSecond == PerSecondOf(times)
  }

  function PerSecondOf(times: map<nat, Times>): map<nat, real> {
    map id | id in times :: times[id].perSecond
  }

  /** The measured nodes are the plan's. */
  ghost predicate Measures(dag: PlanDag, nodes: seq<Measured>) {
    PlanCosting.DistinctIds(nodes) && forall id :: id in Ids(dag) <==> exists i :: 0 <= i < |nodes| && nodes[i].id == id
  }

  datatype PricingError = NoDemand(error: DemandError) | NoCharge(node: nat)

  method TotalLatencies(dag: PlanDag, work: WorkMs, request: Request, ghost reach: seq<set<nat>>) returns (totals: seq<real>)
    requires Closed(dag) && work.perNode.Keys == NodeMap(dag.nodes).Keys
    requires forall n :: n in dag.nodes ==> n.tumblingWindows > 0
    requires |reach| == dag.QueryCount()
    requires forall q :: 0 <= q < |reach| ==> IsReach(dag, StartOf(dag, q), NodeMap(dag.nodes), reach[q])
    ensures |totals| == dag.QueryCount()
    ensures forall q :: 0 <= q < |totals| ==> IsTotal(dag, work, request, reach[q], totals[q])
  {
    hide IsLatency, CompactionOf, IsReach, NodeMap;
    var latencies := QueryLatencies(dag, work.perNode, work.merges, work.formulaMerge, reach);
    totals := [];
    for q := 0 to |latencies|
      invariant |totals| == q && forall p :: 0 <= p < q ==> IsTotal(dag, work, request, reach[p], totals[p])
    {
      var fixed := if request.evaluationMs > 0.0 then request.evaluationMs else 0.0;
      totals := totals + [latencies[q].queryMs + fixed + latencies[q].compactionMs];
      assert IsTotal(dag, work, request, reach[q], latencies[q].queryMs + fixed + latencies[q].compactionMs);
    }
  }

  /**
   The whole pricing of a plan: what its walks and schedules give is what its
   charges are made at, and its cost is its usage at the prices. It fails
   exactly when some rate it needs cannot be formed.
   */
  method PriceDag(dag: PlanDag, demand: Demand, windows: map<nat, Option<nat>>, nodes: seq<Measured>, work: WorkMs,
                  request: Request, p: Prices, first: nat)
    returns (r: Result<(real, Accounts), PricingError>)
    requires dag.DistinctIds() && Closed(dag) && demand.InRange() && WindowsOf(dag, windows)
    requires Measures(dag, nodes) && work.perNode.Keys == NodeMap(dag.nodes).Keys && request.msPerCpuOp != 0.0
    requires forall n :: n in dag.nodes ==> n.tumblingWindows > 0
    ensures r.Success? ==> Computable(dag, demand)
    ensures r.Failure? && r.error.NoDemand? <==> !Computable(dag, demand)
    ensures Computable(dag, demand) ==> exists requests, runs ::
      && AreRequests(dag, demand, request, requests) && ArePlanRuns(dag, demand, windows, work, request, runs)
      && IsPlan(nodes, requests, runs)
      && (r.Success? <==> RatesAllKnown(nodes, requests, runs))
      && (r.Success? ==> exists raw, disk :: PlanPriced(nodes, requests, runs, p, raw, disk, r.value.0, r.value.1))
  {
    hide Demand.InRange, Computable, WindowsOf, Measures, AreRates, AreTimes, IsReach, IsTotal, IsRate, IsPlan, RatesAllKnown,
      PlanPriced, ListsReaching, Consumes, NodeMap, Closed, ArePerSecond, PlanDag.DistinctIds;
    var times := TimesOfNodes(dag, demand, windows);
    if times.Failure? { return Failure(NoDemand(times.error)); }
    var starts := QueryStarts(dag);
    var requestRates := FormRates(demand, dag.QueryCount(), true);
    var requests := Requests(starts, requestRates, request.evaluationMs, request.msPerCpuOp);
    var reach := QueryReach(dag);
    var latencies := TotalLatencies(dag, work, request, reach);
    var queryRates := FormRates(demand, dag.QueryCount(), false);
    var consumers := Consumers(dag);
    var runs := Runs(reach, latencies, queryRates, PerSecondOf(times.value), consumers);
    ConsumersListed(dag, consumers);
    PerSecondGiven(dag, demand, windows, times.value);
    assert ArePlanRuns(dag, demand, windows, work, request, runs);
    PlanGiven(dag, demand, windows, nodes, requests, runs, times.value);
    ghost var raw, disk;
    var priced;
    priced, raw, disk := PlanCost(nodes, requests, runs, p, first);
    if priced.Failure? { return Failure(NoCharge(priced.error)); }
    r := Success(priced.value);
  }

  lemma ConsumersListed(dag: PlanDag, consumers: map<nat, seq<Consumer>>)
    requires dag.DistinctIds()
    requires ListsReaching(consumers, AllWalks(dag), dag.edges, MaterializedIds(dag.nodes), |AllWalks(dag)|)
    ensures forall id :: id in consumers <==> exists c :: Consumes(dag, c, id)
    ensures forall id, c :: id in consumers ==> (c in consumers[id] <==> Consumes(dag, c, id))
  {
    hide ListsReaching, Consumes;
    forall id: nat
      ensures id in consumers <==> exists c :: Consumes(dag, c, id)
      ensures forall c :: id in consumers ==> (c in consumers[id] <==> Consumes(dag, c, id))
    {
      ConsumersAreThePathsUp(dag, consumers, id);
    }
  }

  lemma PerSecondGiven(dag: PlanDag, demand: Demand, windows: map<nat, Option<nat>>, times: map<nat, Times>)
    requires demand.InRange() && Computable(dag, demand)
    requires exists rates :: AreRates(dag, demand, windows, rates) && AreTimes(dag, rates, times)
    ensures ArePerSecond(dag, demand, windows, PerSecondOf(times))
  {
    hide AreRates, AreTimes, Computable, Demand.InRange;
  }

  /** Every query starts at a measured node, and every consumer's executions are known. */
  lemma PlanGiven(dag: PlanDag, demand: Demand, windows: map<nat, Option<nat>>, nodes: seq<Measured>, requests: Requests,
                  runs: Runs, times: map<nat, Times>)
    requires demand.InRange() && Closed(dag) && Measures(dag, nodes) && requests.msPerCpuOp != 0.0
    requires |requests.starts| == dag.QueryCount()
    requires forall q :: 0 <= q < dag.QueryCount() ==> requests.starts[q] == StartOf(dag, q)
    requires runs.perSecond == PerSecondOf(times) && exists rates :: AreTimes(dag, rates, times)
    requires forall id, c :: id in runs.consumers ==> (c in runs.consumers[id] <==> Consumes(dag, c, id))
    ensures IsPlan(nodes, requests, runs)
  {
    hide Demand.InRange, IsTimes, Reaches, PlanCosting.DistinctIds;
    forall q | 0 <= q < |requests.starts| && requests.starts[q] != []
      ensures exists i :: 0 <= i < |nodes| && nodes[i].id == requests.starts[q][0]
    {
      assert requests.starts[q][0] in StartOf(dag, q);
      assert requests.starts[q][0] in Ids(dag);
    }
    forall id, k | id in runs.consumers && 0 <= k < |runs.consumers[id]| && runs.consumers[id][k].Materialized?
      ensures runs.consumers[id][k].node in runs.perSecond
    {
      assert Consumes(dag, runs.consumers[id][k], id);
      assert runs.consumers[id][k].node in MaterializedIds(dag.nodes);
    }
  }
}
