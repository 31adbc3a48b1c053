/**
 What each query reaches at query time and how long one evaluation takes
 (crates/cost/src/usage.rs).
 */
module PlanLatencies {
  import opened FiniteSums
  import opened PlanDags

  function RealCeil(r: real): int {
    -((-r).Floor)
  }

  /** Every node a walk can meet is a node of the plan. */
  ghost predicate Closed(dag: PlanDag) {
    && (forall q :: 0 <= q < dag.QueryCount() ==> forall id :: id in StartOf(dag, q) ==> id in Ids(dag))
    && (forall e :: e in dag.edges ==> e.producer in Ids(dag))
  }

  /** The nodes of `dag` by id (the last of several with one id). */
  function NodeMap(nodes: seq<PlanNode>): (m: map<nat, PlanNode>)
    ensures forall id :: id in m <==> exists i :: 0 <= i < |nodes| && nodes[i].id == id
    ensures forall id :: id in m ==> m[id] in nodes && m[id].id == id
  {
    if nodes == [] then map[]
    else
      var last := nodes[|nodes| - 1];
      var rest := NodeMap(nodes[..|nodes| - 1]);
      assert nodes == nodes[..|nodes| - 1] + [last];
      assert forall i :: 0 <= i < |nodes| - 1 ==> nodes[..|nodes| - 1][i] == nodes[i];
      rest[last.id := last]
  }

  ghost function IngestionIds(nodes: map<nat, PlanNode>): set<nat> {
    set id | id in nodes && nodes[id].atIngestion
  }

  /** The nodes query `q` reaches: its walk stops at, and includes, ingestion-time nodes. */
  ghost predicate IsReach(dag: PlanDag, start: seq<nat>, nodes: map<nat, PlanNode>, reached: set<nat>) {
    forall id: nat :: id in reached <==> Reaches(dag.edges, start, IngestionIds(nodes), id)
  }

  lemma StepStaysInPlan(dag: PlanDag, nodes: map<nat, PlanNode>, id: nat)
    requires Closed(dag) && nodes == NodeMap(dag.nodes)
    ensures forall p :: p in Inputs(dag.edges, id) ==> p in nodes
    ensures forall i :: i in nodes <==> i in Ids(dag)
  {
    InputsAreProducers(dag.edges, id);
  }

  /** One query's `query_reach` walk. */
  method ReachOf(dag: PlanDag, nodes: map<nat, PlanNode>, start: seq<nat>) returns (seen: set<nat>)
    requires Closed(dag) && nodes == NodeMap(dag.nodes)
    requires forall id :: id in start ==> id in nodes
    ensures IsReach(dag, start, nodes, seen)
    ensures forall id :: id in seen ==> id in nodes
  {
    hide Walking, Reaches, Closed, Inputs;
    seen := {};
    var stack := start;
    WalkStarts(dag.edges, start, IngestionIds(nodes));
    while stack != []
      invariant Walking(dag.edges, start, IngestionIds(nodes), seen, stack)
      invariant seen <= nodes.Keys && forall id :: id in stack ==> id in nodes
      decreases nodes.Keys - seen, |stack|
    {
      var id := stack[|stack| - 1];
      ghost var popped, before := stack, seen;
      StackTop(stack);
      stack := stack[..|stack| - 1];
      if id in seen {
        WalkSkips(dag.edges, start, IngestionIds(nodes), before, popped);
      } else {
        seen := seen + {id};
        if nodes[id].atIngestion {
          WalkStops(dag.edges, start, IngestionIds(nodes), before, popped);
        } else {
          WalkDescends(dag.edges, start, IngestionIds(nodes), before, popped);
          StepStaysInPlan(dag, nodes, id);
          stack := stack + Inputs(dag.edges, id);
        }
      }
    }
    WalkEnds(dag.edges, start, IngestionIds(nodes), seen);
  }

  method QueryReach(dag: PlanDag) returns (reach: seq<set<nat>>)
    requires Closed(dag)
    ensures |reach| == dag.QueryCount()
    ensures forall q :: 0 <= q < |reach| ==> IsReach(dag, StartOf(dag, q), NodeMap(dag.nodes), reach[q])
  {
    hide IsReach;
    var nodes := NodeMap(dag.nodes);
    var starts := QueryStarts(dag);
    reach := [];
    for q := 0 to |starts|
      invariant |reach| == q
      invariant forall p :: 0 <= p < q ==> IsReach(dag, StartOf(dag, p), nodes, reach[p])
    {
      StepStaysInPlan(dag, nodes, 0);
      var seen := ReachOf(dag, nodes, starts[q]);
      reach := reach + [seen];
    }
  }

  function WorkOf(work: map<nat, real>): nat -> real {
    (id: nat) => if id in work then work[id] else 0.0
  }

  ghost predicate IsUpstream(dag: PlanDag, state: nat, ids: set<nat>) {
    forall id: nat :: id in ids <==> Reaches(dag.edges, [state], {}, id)
  }

  ghost function UpstreamOf(dag: PlanDag, state: nat): set<nat> {
    set id | id in Ids(dag) && Reaches(dag.edges, [state], {}, id)
  }

  lemma UpstreamIs(dag: PlanDag, nodes: map<nat, PlanNode>, state: nat, ids: set<nat>)
    requires Closed(dag) && nodes == NodeMap(dag.nodes) && IsUpstream(dag, state, ids) && ids <= nodes.Keys
    ensures ids == UpstreamOf(dag, state)
  {
    hide Reaches;
    StepStaysInPlan(dag, nodes, 0);
  }

  /** The cores the work above a state takes, at least one; every node counts once however many paths lead to it. */
  method IngestWorkers(dag: PlanDag, nodes: map<nat, PlanNode>, work: map<nat, real>, state: nat)
    returns (workers: int)
    requires Closed(dag) && nodes == NodeMap(dag.nodes) && state in nodes && work.Keys == nodes.Keys
    ensures workers == WorkersFor(SumOver(UpstreamOf(dag, state), WorkOf(work)))
  {
    hide Walking, Reaches, Closed, Inputs;
    var total := 0.0;
    var seen: set<nat> := {};
    var stack := [state];
    WalkStarts(dag.edges, [state], {});
    while stack != []
      invariant Walking(dag.edges, [state], {}, seen, stack)
      invariant seen <= nodes.Keys && forall id :: id in stack ==> id in nodes
      invariant total == SumOver(seen, WorkOf(work))
      decreases nodes.Keys - seen, |stack|
    {
      var id := stack[|stack| - 1];
      ghost var popped, before := stack, seen;
      StackTop(stack);
      stack := stack[..|stack| - 1];
      if id !in seen {
        SumSplit(before + {id}, id, WorkOf(work));
        assert before + {id} - {id} == before;
        WalkDescends(dag.edges, [state], {}, before, popped);
        StepStaysInPlan(dag, nodes, id);
        seen := seen + {id};
        total := total + work[id];
        stack := stack + Inputs(dag.edges, id);
      } else {
        WalkSkips(dag.edges, [state], {}, before, popped);
      }
    }
    WalkEnds(dag.edges, [state], {}, seen);
    UpstreamIs(dag, nodes, state, seen);
    workers := WorkersFor(total);
  }

  function WorkersFor(ingestMsPerSecond: real): int {
    var cores := RealCeil(ingestMsPerSecond / 1000.0);
    if cores < 1 then 1 else cores
  }

  /** The fewest workers, at least one, whose whole cores take the work of a second. */
  lemma WorkersAreLeast(ingestMsPerSecond: real, k: int)
    ensures WorkersFor(ingestMsPerSecond) <= k <==> k >= 1 && ingestMsPerSecond <= 1000.0 * k as real
  {
    var x := ingestMsPerSecond / 1000.0;
    assert x * 1000.0 == ingestMsPerSecond;
    var down := (-x).Floor;
    assert down as real <= -x < (down + 1) as real;
  }

  datatype QueryLatency = QueryLatency(compactionMs: real, queryMs: real)

  /** Merging the ingest workers' copies of a state's newest window: `(k - 1)` merges for each of its states. */
  ghost function CompactionOf(dag: PlanDag, nodes: map<nat, PlanNode>, work: map<nat, real>, mergeMs: map<nat, real>,
                              formulaMergeMs: real): nat -> real
  {
    (state: nat) =>
      if state !in nodes || nodes[state].tumblingWindows == 0 then 0.0
      else MergingMs(WorkersFor(SumOver(UpstreamOf(dag, state), WorkOf(work))), nodes[state], MergeOf(state, mergeMs, formulaMergeMs))
  }

  function MergeOf(state: nat, mergeMs: map<nat, real>, formulaMergeMs: real): real {
    if state in mergeMs then mergeMs[state] else formulaMergeMs
  }

  function MergingMs(workers: int, node: PlanNode, perMergeMs: real): real
    requires node.tumblingWindows > 0
  {
    (workers - 1) as real * (node.rows / node.tumblingWindows) as real * perMergeMs
  }

  /** One worker leaves nothing to merge, and each further one a copy of each state of the newest window. */
  lemma EachWorkerMerges(workers: int, node: PlanNode, perMergeMs: real)
    requires node.tumblingWindows > 0
    ensures MergingMs(1, node, perMergeMs) == 0.0
    ensures MergingMs(workers + 1, node, perMergeMs)
         == MergingMs(workers, node, perMergeMs) + (node.rows / node.tumblingWindows) as real * perMergeMs
  {
    var states := (node.rows / node.tumblingWindows) as real;
    assert (workers + 1 - 1) as real == (workers - 1) as real + 1.0;
    OneMoreTime((workers - 1) as real, states, perMergeMs);
  }

  lemma OneMoreTime(n: real, states: real, each: real)
    ensures (n + 1.0) * states * each == n * states * each + states * each
    ensures 0.0 * states * each == 0.0
  {
    assert (n + 1.0) * states == n * states + states;
  }

  method CompactionMs(dag: PlanDag, nodes: map<nat, PlanNode>, work: map<nat, real>, mergeMs: map<nat, real>,
                      formulaMergeMs: real, state: nat) returns (ms: real)
    requires Closed(dag) && nodes == NodeMap(dag.nodes) && state in nodes && work.Keys == nodes.Keys
    requires nodes[state].tumblingWindows > 0
    ensures ms == CompactionOf(dag, nodes, work, mergeMs, formulaMergeMs)(state)
  {
    hide Closed, MergingMs;
    var workers := IngestWorkers(dag, nodes, work, state);
    ms := MergingMs(workers, nodes[state], MergeOf(state, mergeMs, formulaMergeMs));
  }

  /** `m` is the largest of `f` over `s`, or zero when none is above it. */
  ghost predicate IsLargest(m: real, s: set<nat>, f: nat -> real) {
    && m >= 0.0
    && (forall id :: id in s ==> f(id) <= m)
    && (m == 0.0 || exists id :: id in s && f(id) == m)
  }

  lemma LargestGrows(m: real, s: set<nat>, f: nat -> real, id: nat)
    requires IsLargest(m, s, f)
    ensures IsLargest(if f(id) > m then f(id) else m, s + {id}, f)
  {
    if f(id) > m { assert id in s + {id}; }
    else if m != 0.0 { var largest :| largest in s && f(largest) == m; assert largest in s + {id}; }
  }

  /** What `query_latencies` promises of a query that reaches `reached`. */
  ghost predicate IsLatency(latency: QueryLatency, reached: set<nat>, nodes: map<nat, PlanNode>, work: map<nat, real>,
                            compaction: nat -> real)
  {
    && latency.queryMs == SumOver(reached - IngestionIds(nodes), WorkOf(work))
    && IsLargest(latency.compactionMs, reached * IngestionIds(nodes), compaction)
  }

  /** The latency after one more node was met. */
  lemma LatencyGrows(latency: QueryLatency, reached: set<nat>, nodes: map<nat, PlanNode>, work: map<nat, real>,
                     compaction: nat -> real, id: nat)
    requires IsLatency(latency, reached, nodes, work, compaction) && id in nodes && id in work && id !in reached
    ensures nodes[id].atIngestion ==>
      IsLatency(latency.(compactionMs := if compaction(id) > latency.compactionMs then compaction(id) else latency.compactionMs),
                reached + {id}, nodes, work, compaction)
    ensures !nodes[id].atIngestion ==>
      IsLatency(latency.(queryMs := latency.queryMs + work[id]), reached + {id}, nodes, work, compaction)
  {
    var ingestion := IngestionIds(nodes);
    if nodes[id].atIngestion {
      assert (reached + {id}) - ingestion == reached - ingestion;
      assert (reached + {id}) * ingestion == reached * ingestion + {id};
      LargestGrows(latency.compactionMs, reached * ingestion, compaction, id);
    } else {
      assert (reached + {id}) - ingestion - {id} == reached - ingestion;
      assert (reached + {id}) * ingestion == reached * ingestion;
      SumSplit((reached + {id}) - ingestion, id, WorkOf(work));
    }
  }

  method LatencyOf(dag: PlanDag, nodes: map<nat, PlanNode>, work: map<nat, real>, mergeMs: map<nat, real>,
                   formulaMergeMs: real, start: seq<nat>)
    returns (latency: QueryLatency, ghost seen': set<nat>)
    requires Closed(dag) && nodes == NodeMap(dag.nodes) && work.Keys == nodes.Keys
    requires forall id :: id in nodes ==> nodes[id].tumblingWindows > 0
    requires forall id :: id in start ==> id in nodes
    ensures IsReach(dag, start, nodes, seen')
    ensures IsLatency(latency, seen', nodes, work, CompactionOf(dag, nodes, work, mergeMs, formulaMergeMs))
  {
    hide Walking, Reaches, Closed, Inputs, CompactionOf, IsLatency;
    ghost var compaction := CompactionOf(dag, nodes, work, mergeMs, formulaMergeMs);
    latency := QueryLatency(0.0, 0.0);
    NoLatency(nodes, work, compaction);
    var seen: set<nat> := {};
    var stack := start;
    WalkStarts(dag.edges, start, IngestionIds(nodes));
    while stack != []
      invariant Walking(dag.edges, start, IngestionIds(nodes), seen, stack)
      invariant seen <= nodes.Keys && forall id :: id in stack ==> id in nodes
      invariant IsLatency(latency, seen, nodes, work, compaction)
      decreases nodes.Keys - seen, |stack|
    {
      var id := stack[|stack| - 1];
      ghost var popped, before := stack, seen;
      StackTop(stack);
      stack := stack[..|stack| - 1];
      if id in seen {
        WalkSkips(dag.edges, start, IngestionIds(nodes), before, popped);
        continue;
      }
      LatencyGrows(latency, seen, nodes, work, compaction, id);
      seen := seen + {id};
      if nodes[id].atIngestion {
        WalkStops(dag.edges, start, IngestionIds(nodes), before, popped);
        var ms := CompactionMs(dag, nodes, work, mergeMs, formulaMergeMs, id);
        latency := latency.(compactionMs := if ms > latency.compactionMs then ms else latency.compactionMs);
        continue;
      }
      WalkDescends(dag.edges, start, IngestionIds(nodes), before, popped);
      StepStaysInPlan(dag, nodes, id);
      latency := latency.(queryMs := latency.queryMs + work[id]);
      stack := stack + Inputs(dag.edges, id);
    }
    WalkEnds(dag.edges, start, IngestionIds(nodes), seen);
    seen' := seen;
  }

  lemma NoLatency(nodes: map<nat, PlanNode>, work: map<nat, real>, compaction: nat -> real)
    ensures IsLatency(QueryLatency(0.0, 0.0), {}, nodes, work, compaction)
  {
    assert {} - IngestionIds(nodes) == {} && {} * IngestionIds(nodes) == {};
  }

  /**
   Each query's latency, from one walk that adds work as it goes: it is the
   work of the non-ingestion nodes `QueryReach` gives, each once, with the
   largest compaction among its ingestion-time nodes.
   */
  method QueryLatencies(dag: PlanDag, work: map<nat, real>, mergeMs: map<nat, real>,
                        formulaMergeMs: real, ghost reach: seq<set<nat>>)
    returns (latencies: seq<QueryLatency>)
    requires Closed(dag) && work.Keys == NodeMap(dag.nodes).Keys
    requires forall n :: n in dag.nodes ==> n.tumblingWindows > 0
    requires |reach| == dag.QueryCount()
    requires forall q :: 0 <= q < |reach| ==> IsReach(dag, StartOf(dag, q), NodeMap(dag.nodes), reach[q])
    ensures |latencies| == dag.QueryCount()
    ensures forall q :: 0 <= q < |latencies| ==>
      IsLatency(latencies[q], reach[q], NodeMap(dag.nodes), work, CompactionOf(dag, NodeMap(dag.nodes), work, mergeMs, formulaMergeMs))
  {
    hide IsLatency, CompactionOf, IsReach, NodeMap;
    var nodes := NodeMap(dag.nodes);
    var starts := QueryStarts(dag);
    latencies := [];
    for q := 0 to |starts|
      invariant |latencies| == q
      invariant forall p :: 0 <= p < q ==>
        IsLatency(latencies[p], reach[p], nodes, work, CompactionOf(dag, nodes, work, mergeMs, formulaMergeMs))
    {
      StepStaysInPlan(dag, nodes, 0);
      ghost var seen;
      var latency;
      latency, seen := LatencyOf(dag, nodes, work, mergeMs, formulaMergeMs, starts[q]);
      SameReach(dag, starts[q], nodes, seen, reach[q]);
      latencies := latencies + [latency];
    }
  }

  lemma SameReach(dag: PlanDag, start: seq<nat>, nodes: map<nat, PlanNode>, a: set<nat>, b: set<nat>)
    requires IsReach(dag, start, nodes, a) && IsReach(dag, start, nodes, b)
    ensures a == b
  {
    hide Reaches;
  }
}
