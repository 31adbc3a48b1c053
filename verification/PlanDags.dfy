/**
 The physical plan DAG, what each of its queries reads first, and reachability
 down its edges (crates/types/src/ir/physical_export.rs,
 crates/cost/src/execution_demand.rs, tools/dag-viewer/stages.js).
 */
module PlanDags {
  import opened FiniteSums

  /**
   `rows` are a node's output rows and `tumblingWindows` the windows a chain
   keeps (1 for any other node); a chain kept across evaluations is built once
   per request.
   */
  datatype PlanNode = PlanNode(
    id: nat, materialized: bool, atIngestion: bool, keptAcrossEvaluations: bool, rows: nat, tumblingWindows: nat)

  datatype Edge = Edge(producer: nat, consumer: nat)

  /** A standalone scalar query: its position in the batch and the nodes its expression reads. */
  datatype ScalarRoot = ScalarRoot(position: nat, refs: seq<nat>)

  datatype PlanDag = PlanDag(nodes: seq<PlanNode>, edges: seq<Edge>, roots: seq<nat>, scalarRoots: seq<ScalarRoot>) {
    function QueryCount(): nat {
      |roots| + |scalarRoots|
    }

    predicate DistinctIds() {
      forall i, j :: 0 <= i < j < |nodes| ==> nodes[i].id != nodes[j].id
    }
  }

  ghost function Ids(dag: PlanDag): set<nat> {
    set i | 0 <= i < |dag.nodes| :: dag.nodes[i].id
  }

  /** The producers a node reads, in edge order. */
  function Inputs(edges: seq<Edge>, id: nat): seq<nat> {
    if edges == [] then []
    else
      var last := edges[|edges| - 1];
      Inputs(edges[..|edges| - 1], id) + (if last.consumer == id then [last.producer] else [])
  }

  ghost function Producers(edges: seq<Edge>): set<nat> {
    set i | 0 <= i < |edges| :: edges[i].producer
  }

  lemma {:induction false} InputsAreProducers(edges: seq<Edge>, id: nat)
    ensures forall p :: p in Inputs(edges, id) <==> Edge(p, id) in edges
    ensures forall p :: p in Inputs(edges, id) ==> p in Producers(edges)
  {
    if edges != [] {
      var prefix, last := edges[..|edges| - 1], edges[|edges| - 1];
      InputsAreProducers(prefix, id);
      assert forall e :: e in edges <==> e in prefix || e == last;
      forall p | Edge(p, id) in edges ensures p in Producers(edges) {
        var i :| 0 <= i < |edges| && edges[i] == Edge(p, id);
        assert edges[i].producer == p;
      }
    }
  }

  // ------------------------------------------------------ reachability

  /** Each node of the path reads the next one, and no node but the last is in `closed`. */
  ghost predicate IsPath(edges: seq<Edge>, closed: set<nat>, path: seq<nat>) {
    && path != []
    && forall i :: 0 <= i < |path| - 1 ==> path[i] !in closed && Edge(path[i + 1], path[i]) in edges
  }

  /** Some path from `start` ends at `id`; a node of `closed` ends every path it is on. */
  ghost predicate Reaches(edges: seq<Edge>, start: seq<nat>, closed: set<nat>, id: nat) {
    exists path :: IsPath(edges, closed, path) && path[0] in start && path[|path| - 1] == id
  }

  /** A depth-first walk in progress: `met` nodes popped so far, `stack` still to pop. */
  ghost predicate Walking(edges: seq<Edge>, start: seq<nat>, closed: set<nat>, met: set<nat>, stack: seq<nat>) {
    && (forall id: nat :: id in met || id in stack ==> Reaches(edges, start, closed, id))
    && (forall id: nat :: id in start ==> id in met || id in stack)
    && (forall id: nat, p: nat :: id in met && id !in closed && Edge(p, id) in edges ==> p in met || p in stack)
  }

  lemma WalkStarts(edges: seq<Edge>, start: seq<nat>, closed: set<nat>)
    ensures Walking(edges, start, closed, {}, start)
  {
    forall id | id in start ensures Reaches(edges, start, closed, id) {
      assert IsPath(edges, closed, [id]) && [id][0] in start;
    }
  }

  lemma StackTop(stack: seq<nat>)
    requires stack != []
    ensures forall id :: id in stack <==> id in stack[..|stack| - 1] || id == stack[|stack| - 1]
  {
    assert stack == stack[..|stack| - 1] + [stack[|stack| - 1]];
  }

  /** Popping a node that was met before. */
  lemma WalkSkips(edges: seq<Edge>, start: seq<nat>, closed: set<nat>, met: set<nat>, stack: seq<nat>)
    requires stack != [] && Walking(edges, start, closed, met, stack) && stack[|stack| - 1] in met
    ensures Walking(edges, start, closed, met, stack[..|stack| - 1])
  {
    StackTop(stack);
  }

  /** Popping a node where the walk stops. */
  lemma WalkStops(edges: seq<Edge>, start: seq<nat>, closed: set<nat>, met: set<nat>, stack: seq<nat>)
    requires stack != [] && Walking(edges, start, closed, met, stack) && stack[|stack| - 1] in closed
    ensures Walking(edges, start, closed, met + {stack[|stack| - 1]}, stack[..|stack| - 1])
  {
    StackTop(stack);
  }

  /** Popping a new node and pushing its inputs. */
  lemma WalkDescends(edges: seq<Edge>, start: seq<nat>, closed: set<nat>, met: set<nat>, stack: seq<nat>)
    requires stack != [] && Walking(edges, start, closed, met, stack) && stack[|stack| - 1] !in closed
    ensures Walking(edges, start, closed, met + {stack[|stack| - 1]},
                    stack[..|stack| - 1] + Inputs(edges, stack[|stack| - 1]))
  {
    var id := stack[|stack| - 1];
    StackTop(stack);
    InputsAreProducers(edges, id);
    forall p | p in Inputs(edges, id) ensures Reaches(edges, start, closed, p) {
      PathGrows(edges, start, closed, id, p);
    }
    hide Reaches;
    assert forall p :: p in stack[..|stack| - 1] + Inputs(edges, id) <==> p in stack[..|stack| - 1] || p in Inputs(edges, id);
  }

  lemma PathGrows(edges: seq<Edge>, start: seq<nat>, closed: set<nat>, id: nat, p: nat)
    requires Reaches(edges, start, closed, id) && id !in closed && Edge(p, id) in edges
    ensures Reaches(edges, start, closed, p)
  {
    var path: seq<nat> :| IsPath(edges, closed, path) && path[0] in start && path[|path| - 1] == id;
    assert IsPath(edges, closed, path + [p]) && (path + [p])[0] in start;
  }

  /** A finished walk has met exactly the nodes it can reach. */
  lemma WalkEnds(edges: seq<Edge>, start: seq<nat>, closed: set<nat>, met: set<nat>)
    requires Walking(edges, start, closed, met, [])
    ensures forall id: nat :: id in met <==> Reaches(edges, start, closed, id)
  {
    forall id: nat | Reaches(edges, start, closed, id) ensures id in met {
      var path :| IsPath(edges, closed, path) && path[0] in start && path[|path| - 1] == id;
      PathIsMet(edges, start, closed, met, path, |path| - 1);
    }
  }

  lemma {:induction false} PathIsMet(edges: seq<Edge>, start: seq<nat>, closed: set<nat>, met: set<nat>,
                                     path: seq<nat>, i: nat)
    requires Walking(edges, start, closed, met, [])
    requires IsPath(edges, closed, path) && path[0] in start && i < |path|
    ensures path[i] in met
  {
    if i > 0 {
      PathIsMet(edges, start, closed, met, path, i - 1);
      assert Edge(path[i - 1 + 1], path[i - 1]) in edges;
    }
  }

  /** What can ever be on the stack of a walk: it bounds how many nodes are new. */
  ghost function Universe(edges: seq<Edge>, start: seq<nat>): set<nat> {
    (set id | id in start) + Producers(edges)
  }

  // ----------------------------------------------------- query starts

  /** The first scalar root keyed `position`. */
  function FindScalar(scalarRoots: seq<ScalarRoot>, position: nat): (i: int)
    ensures -1 <= i < |scalarRoots|
    ensures i >= 0 ==> scalarRoots[i].position == position
    ensures i < 0 ==> forall j :: 0 <= j < |scalarRoots| ==> scalarRoots[j].position != position
  {
    if scalarRoots == [] then -1
    else if scalarRoots[0].position == position then 0
    else
      var rest := FindScalar(scalarRoots[1..], position);
      assert forall j :: 1 <= j < |scalarRoots| ==> scalarRoots[j] == scalarRoots[1..][j - 1];
      if rest < 0 then -1 else rest + 1
  }

  predicate IsScalar(dag: PlanDag, position: nat) {
    FindScalar(dag.scalarRoots, position) >= 0
  }

  /** How many of the first `n` queries are operator queries. */
  function OperatorQueries(dag: PlanDag, n: nat): nat {
    if n == 0 then 0 else OperatorQueries(dag, n - 1) + (if IsScalar(dag, n - 1) then 0 else 1)
  }

  /** What query `q` reads first: its scalar root's references, else the next operator root. */
  function StartOf(dag: PlanDag, q: nat): seq<nat> {
    if IsScalar(dag, q) then dag.scalarRoots[FindScalar(dag.scalarRoots, q)].refs
    else if OperatorQueries(dag, q) < |dag.roots| then [dag.roots[OperatorQueries(dag, q)]]
    else []
  }

  method QueryStarts(dag: PlanDag) returns (starts: seq<seq<nat>>)
    ensures |starts| == dag.QueryCount()
    ensures forall q :: 0 <= q < |starts| ==> starts[q] == StartOf(dag, q)
  {
    starts := [];
    var next := 0;
    for query := 0 to dag.QueryCount()
      invariant |starts| == query
      invariant forall q :: 0 <= q < query ==> starts[q] == StartOf(dag, q)
      invariant next == if OperatorQueries(dag, query) < |dag.roots| then OperatorQueries(dag, query) else |dag.roots|
    {
      var found := FindScalar(dag.scalarRoots, query);
      if found >= 0 {
        starts := starts + [dag.scalarRoots[found].refs];
      } else if next < |dag.roots| {
        starts := starts + [[dag.roots[next]]];
        next := next + 1;
      } else {
        starts := starts + [[]];
      }
    }
  }

  /** Scalar roots keyed by distinct positions of the batch. */
  predicate ScalarsFit(dag: PlanDag) {
    && DistinctScalars(dag.scalarRoots)
    && (forall i :: 0 <= i < |dag.scalarRoots| ==> dag.scalarRoots[i].position < dag.QueryCount())
  }

  ghost function ScalarPositions(dag: PlanDag, n: nat): set<nat> {
    set q: nat | q < n && IsScalar(dag, q)
  }

  lemma {:induction false} OperatorQueriesCount(dag: PlanDag, n: nat)
    ensures OperatorQueries(dag, n) + |ScalarPositions(dag, n)| == n
  {
    if n > 0 {
      OperatorQueriesCount(dag, n - 1);
      NextPosition(dag, n);
    }
  }

  lemma NextPosition(dag: PlanDag, n: nat)
    requires n > 0
    ensures |ScalarPositions(dag, n)| == |ScalarPositions(dag, n - 1)| + if IsScalar(dag, n - 1) then 1 else 0
  {
    hide IsScalar;
    var before := ScalarPositions(dag, n - 1);
    if IsScalar(dag, n - 1) {
      assert ScalarPositions(dag, n) == before + {n - 1};
    } else {
      assert ScalarPositions(dag, n) == before;
    }
  }

  ghost function PositionsOf(scalarRoots: seq<ScalarRoot>): set<nat> {
    set i | 0 <= i < |scalarRoots| :: scalarRoots[i].position
  }

  predicate DistinctScalars(scalarRoots: seq<ScalarRoot>) {
    forall i, j :: 0 <= i < j < |scalarRoots| ==> scalarRoots[i].position != scalarRoots[j].position
  }

  lemma PositionsGrow(scalarRoots: seq<ScalarRoot>, last: ScalarRoot)
    ensures PositionsOf(scalarRoots + [last]) == PositionsOf(scalarRoots) + {last.position}
    ensures DistinctScalars(scalarRoots + [last]) <==> DistinctScalars(scalarRoots) && last.position !in PositionsOf(scalarRoots)
  {
    var all, n := scalarRoots + [last], |scalarRoots|;
    assert all[n] == last && forall i :: 0 <= i < n ==> all[i] == scalarRoots[i];
    forall p | p in PositionsOf(scalarRoots) + {last.position} ensures p in PositionsOf(all) {
      if p == last.position { assert all[n].position == p; }
      else { var i :| 0 <= i < n && scalarRoots[i].position == p; assert all[i].position == p; }
    }
    if last.position in PositionsOf(scalarRoots) {
      var i :| 0 <= i < n && scalarRoots[i].position == last.position;
      assert all[i].position == all[n].position;
    }
    if DistinctScalars(all) {
      forall i, j | 0 <= i < j < n ensures scalarRoots[i].position != scalarRoots[j].position {
        assert all[i].position != all[j].position;
      }
    }
  }

  /** As many positions as roots, exactly when no two roots share one. */
  lemma {:induction false} DistinctPositions(scalarRoots: seq<ScalarRoot>)
    ensures |PositionsOf(scalarRoots)| <= |scalarRoots|
    ensures |PositionsOf(scalarRoots)| == |scalarRoots| <==> DistinctScalars(scalarRoots)
  {
    if scalarRoots != [] {
      var prefix, last := scalarRoots[..|scalarRoots| - 1], scalarRoots[|scalarRoots| - 1];
      DistinctPositions(prefix);
      PositionsGrow(prefix, last);
      assert prefix + [last] == scalarRoots;
    }
  }

  /**
   Every operator root is read by a query, and every query that is not scalar
   has a root of its own exactly when the scalar positions are distinct and
   below the number of queries.
   */
  lemma EveryQueryHasItsRoot(dag: PlanDag)
    ensures OperatorQueries(dag, dag.QueryCount()) >= |dag.roots|
    ensures OperatorQueries(dag, dag.QueryCount()) == |dag.roots| <==> ScalarsFit(dag)
  {
    var n := dag.QueryCount();
    OperatorQueriesCount(dag, n);
    DistinctPositions(dag.scalarRoots);
    forall p | p in ScalarPositions(dag, n) ensures p in PositionsOf(dag.scalarRoots) {
      assert dag.scalarRoots[FindScalar(dag.scalarRoots, p)].position == p;
    }
    SubsetSize(ScalarPositions(dag, n), PositionsOf(dag.scalarRoots));
    if ScalarsFit(dag) {
      forall p | p in PositionsOf(dag.scalarRoots) ensures p in ScalarPositions(dag, n) {}
      assert ScalarPositions(dag, n) == PositionsOf(dag.scalarRoots);
    }
    if ScalarPositions(dag, n) == PositionsOf(dag.scalarRoots) {
      forall i | 0 <= i < |dag.scalarRoots| ensures dag.scalarRoots[i].position < n {
        assert dag.scalarRoots[i].position in PositionsOf(dag.scalarRoots);
      }
    }
  }

  lemma {:induction false} OperatorQueriesGrow(dag: PlanDag, a: nat, b: nat)
    requires a <= b
    ensures OperatorQueries(dag, a) <= OperatorQueries(dag, b)
    decreases b
  {
    if a < b { OperatorQueriesGrow(dag, a, b - 1); }
  }

  lemma {:induction false} QueryOfRoot(dag: PlanDag, n: nat, r: nat) returns (q: nat)
    requires r < OperatorQueries(dag, n)
    ensures q < n && !IsScalar(dag, q) && OperatorQueries(dag, q) == r
  {
    if OperatorQueries(dag, n - 1) == r {
      q := n - 1;
    } else {
      q := QueryOfRoot(dag, n - 1, r);
    }
  }

  predicate IsQueryOfRoot(dag: PlanDag, q: nat, r: nat) {
    q < dag.QueryCount() && !IsScalar(dag, q) && OperatorQueries(dag, q) == r
  }

  /** Root `r` is the start of exactly one operator query, and later roots go to later queries. */
  lemma RootsInOrder(dag: PlanDag, r: nat)
    requires r < |dag.roots|
    ensures exists q: nat :: IsQueryOfRoot(dag, q, r) && StartOf(dag, q) == [dag.roots[r]]
    ensures forall q: nat, q': nat :: q < q' && !IsScalar(dag, q) ==> OperatorQueries(dag, q) < OperatorQueries(dag, q')
  {
    EveryQueryHasItsRoot(dag);
    var q := QueryOfRoot(dag, dag.QueryCount(), r);
    assert IsQueryOfRoot(dag, q, r) && StartOf(dag, q) == [dag.roots[r]];
    forall q: nat, q': nat | q < q' && !IsScalar(dag, q)
      ensures OperatorQueries(dag, q) < OperatorQueries(dag, q')
    {
      OperatorQueriesGrow(dag, q + 1, q');
    }
  }

  // --------------------------------------------------- the viewer's merge

  datatype StageQuery = ScalarQuery(root: ScalarRoot) | NodeQuery(node: nat)

  /** The last entry of a position wins, as in a JavaScript `Map` built from the list. */
  function LastScalar(scalarRoots: seq<ScalarRoot>, position: nat): (i: int)
    ensures -1 <= i < |scalarRoots|
    ensures i >= 0 ==> scalarRoots[i].position == position
    ensures i < 0 ==> forall j :: 0 <= j < |scalarRoots| ==> scalarRoots[j].position != position
  {
    if scalarRoots == [] then -1
    else
      var last := |scalarRoots| - 1;
      if scalarRoots[last].position == position then last
      else
        var rest := LastScalar(scalarRoots[..last], position);
        assert forall j :: 0 <= j < last ==> scalarRoots[j] == scalarRoots[..last][j];
        rest
  }

  /**
   The counting checks of `validatePhysicalDag` for a workload of `queryCount`
   queries: the roots add up, and scalar positions increase below the count.
   */
  predicate PassesValidation(dag: PlanDag, queryCount: nat) {
    && dag.QueryCount() == queryCount
    && (forall i :: 0 <= i < |dag.scalarRoots| ==> dag.scalarRoots[i].position < queryCount)
    && (forall i :: 0 < i < |dag.scalarRoots| ==> dag.scalarRoots[i - 1].position < dag.scalarRoots[i].position)
  }

  /** The scan with a running `previous` that the validator makes accepts just those positions. */
  method ValidateScalarPositions(scalarRoots: seq<ScalarRoot>, queryCount: nat) returns (errors: nat)
    ensures errors == 0 <==>
      && (forall i :: 0 <= i < |scalarRoots| ==> scalarRoots[i].position < queryCount)
      && (forall i :: 0 < i < |scalarRoots| ==> scalarRoots[i - 1].position < scalarRoots[i].position)
  {
    errors := 0;
    var previous := -1;
    for i := 0 to |scalarRoots|
      invariant errors == 0 ==> previous == if i == 0 then -1 else scalarRoots[i - 1].position
      invariant errors == 0 <==>
        && (forall j :: 0 <= j < i ==> scalarRoots[j].position < queryCount)
        && (forall j :: 0 < j < i ==> scalarRoots[j - 1].position < scalarRoots[j].position)
    {
      var position := scalarRoots[i].position;
      if position <= previous || position >= queryCount {
        errors := errors + 1;
      } else {
        previous := position;
      }
    }
  }

  lemma {:induction false} IncreasingPositions(scalarRoots: seq<ScalarRoot>, i: nat, j: nat)
    requires i < j < |scalarRoots|
    requires forall i :: 0 < i < |scalarRoots| ==> scalarRoots[i - 1].position < scalarRoots[i].position
    ensures scalarRoots[i].position < scalarRoots[j].position
  {
    if i < j - 1 { IncreasingPositions(scalarRoots, i, j - 1); }
  }

  lemma ValidationFits(dag: PlanDag, queryCount: nat)
    requires PassesValidation(dag, queryCount)
    ensures ScalarsFit(dag)
    ensures forall p :: LastScalar(dag.scalarRoots, p) == FindScalar(dag.scalarRoots, p)
  {
    forall i, j | 0 <= i < j < |dag.scalarRoots|
      ensures dag.scalarRoots[i].position < dag.scalarRoots[j].position
    {
      IncreasingPositions(dag.scalarRoots, i, j);
    }
  }

  function MaxPosition(scalarRoots: seq<ScalarRoot>): (m: nat)
    ensures forall i :: 0 <= i < |scalarRoots| ==> scalarRoots[i].position < m
  {
    if scalarRoots == [] then 0
    else
      var rest, last := MaxPosition(scalarRoots[..|scalarRoots| - 1]), scalarRoots[|scalarRoots| - 1].position;
      assert forall i :: 0 <= i < |scalarRoots| - 1 ==> scalarRoots[i] == scalarRoots[..|scalarRoots| - 1][i];
      if rest <= last then last + 1 else rest
  }

  /** What the merge makes of position `q`. */
  predicate MergedAt(dag: PlanDag, q: nat, query: StageQuery) {
    var found := LastScalar(dag.scalarRoots, q);
    if found >= 0 then query == ScalarQuery(dag.scalarRoots[found])
    else OperatorQueries(dag, q) < |dag.roots| && query == NodeQuery(dag.roots[OperatorQueries(dag, q)])
  }

  predicate Merged(dag: PlanDag, queries: seq<StageQuery>) {
    && (forall q :: 0 <= q < |queries| ==> MergedAt(dag, q, queries[q]))
    && OperatorQueries(dag, |queries|) <= |dag.roots|
  }

  /** The viewer's merge stops at the first position with neither a root nor a scalar left. */
  method StageQueries(dag: PlanDag) returns (queries: seq<StageQuery>)
    ensures Merged(dag, queries)
    ensures OperatorQueries(dag, |queries|) == |dag.roots| && !IsScalar(dag, |queries|)
  {
    queries := [];
    var next, index := 0, 0;
    while next < |dag.roots| || LastScalar(dag.scalarRoots, index) >= 0
      invariant index == |queries|
      invariant next == OperatorQueries(dag, index)
      invariant Merged(dag, queries)
      decreases |dag.roots| - next, MaxPosition(dag.scalarRoots) - index
    {
      var found := LastScalar(dag.scalarRoots, index);
      var query;
      if found >= 0 {
        query := ScalarQuery(dag.scalarRoots[found]);
      } else {
        query := NodeQuery(dag.roots[next]);
        next := next + 1;
      }
      assert MergedAt(dag, index, query);
      SameScalars(dag.scalarRoots, index);
      queries := queries + [query];
      index := index + 1;
    }
    SameScalars(dag.scalarRoots, index);
  }

  lemma SameScalars(scalarRoots: seq<ScalarRoot>, p: nat)
    ensures LastScalar(scalarRoots, p) >= 0 <==> FindScalar(scalarRoots, p) >= 0
  {
  }

  /** On a validated DAG the viewer lists every query, each reading what the planner's `QueryStarts` gives it. */
  lemma ViewerAgreesWithPlanner(dag: PlanDag, queryCount: nat, queries: seq<StageQuery>)
    requires PassesValidation(dag, queryCount)
    requires Merged(dag, queries)
    requires OperatorQueries(dag, |queries|) == |dag.roots| && !IsScalar(dag, |queries|)
    ensures |queries| == queryCount
    ensures forall q :: 0 <= q < |queries| ==>
      match queries[q]
      case ScalarQuery(root) => root in dag.scalarRoots && root.position == q && StartOf(dag, q) == root.refs
      case NodeQuery(node) => !IsScalar(dag, q) && StartOf(dag, q) == [node]
  {
    ValidationFits(dag, queryCount);
    hide PassesValidation, ScalarsFit;
    forall q | 0 <= q < |queries|
      ensures match queries[q]
        case ScalarQuery(root) => root in dag.scalarRoots && root.position == q && StartOf(dag, q) == root.refs
        case NodeQuery(node) => !IsScalar(dag, q) && StartOf(dag, q) == [node]
    {
      assert MergedAt(dag, q, queries[q]);
    }
    MergeLength(dag, queryCount, |queries|);
  }

  lemma MergeLength(dag: PlanDag, queryCount: nat, n: nat)
    requires PassesValidation(dag, queryCount)
    requires OperatorQueries(dag, n) == |dag.roots| && !IsScalar(dag, n)
    ensures n == queryCount
  {
    hide IsScalar, ScalarsFit, PassesValidation, FindScalar;
    ValidationCounts(dag, queryCount);
    OneMoreQuery(dag, n);
    OneMoreQuery(dag, queryCount);
    if n < queryCount {
      OperatorQueriesGrow(dag, n + 1, queryCount);
    } else if n > queryCount {
      OperatorQueriesGrow(dag, queryCount + 1, n);
    }
  }

  lemma ValidationCounts(dag: PlanDag, queryCount: nat)
    requires PassesValidation(dag, queryCount)
    ensures OperatorQueries(dag, queryCount) == |dag.roots| && !IsScalar(dag, queryCount)
  {
    ValidationFits(dag, queryCount);
    EveryQueryHasItsRoot(dag);
  }

  lemma OneMoreQuery(dag: PlanDag, n: nat)
    requires !IsScalar(dag, n)
    ensures OperatorQueries(dag, n + 1) == OperatorQueries(dag, n) + 1
  {
  }
}
