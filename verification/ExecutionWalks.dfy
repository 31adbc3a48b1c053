/**
 The depth-first walks over a plan DAG that say what computes each node, which
 queries reach it and how long a query takes
 (crates/cost/src/execution_demand.rs, crates/cost/src/usage.rs).
 */
module ExecutionWalks {
  import opened PlanDags

  /** What computes a node that is not materialized, once per its own execution. */
  datatype Consumer = Query(query: nat) | Materialized(node: nat)

  datatype Walk = Walk(consumer: Consumer, start: seq<nat>)

  ghost function MaterializedIds(nodes: seq<PlanNode>): set<nat> {
    set i | 0 <= i < |nodes| && nodes[i].materialized :: nodes[i].id
  }

  ghost function QueryWalks(dag: PlanDag, n: nat): seq<Walk> {
    if n == 0 then [] else QueryWalks(dag, n - 1) + [Walk(Query(n - 1), StartOf(dag, n - 1))]
  }

  ghost function MaterializedWalks(edges: seq<Edge>, nodes: seq<PlanNode>): seq<Walk> {
    if nodes == [] then []
    else
      var last := nodes[|nodes| - 1];
      MaterializedWalks(edges, nodes[..|nodes| - 1])
        + (if last.materialized then [Walk(Materialized(last.id), Inputs(edges, last.id))] else [])
  }

  /** The queries first, in order, then the materialized nodes in node order. */
  ghost function AllWalks(dag: PlanDag): seq<Walk> {
    QueryWalks(dag, dag.QueryCount()) + MaterializedWalks(dag.edges, dag.nodes)
  }

  /** The consumers among the first `n` walks that reach `id` through open nodes only. */
  ghost function Reaching(walks: seq<Walk>, edges: seq<Edge>, closed: set<nat>, n: nat, id: nat): seq<Consumer>
    requires n <= |walks|
  {
    if n == 0 then []
    else
      var last := walks[n - 1];
      Reaching(walks, edges, closed, n - 1, id) + (if Reaches(edges, last.start, closed, id) then [last.consumer] else [])
  }

  function At<T>(lists: map<nat, seq<T>>, id: nat): seq<T> {
    if id in lists then lists[id] else []
  }

  function Push<T>(lists: map<nat, seq<T>>, id: nat, x: T): map<nat, seq<T>> {
    lists[id := At(lists, id) + [x]]
  }

  /** Every list of `lists` is the consumers of the walks made so far. */
  ghost predicate ListsReaching(lists: map<nat, seq<Consumer>>, walks: seq<Walk>, edges: seq<Edge>, closed: set<nat>,
                                n: nat)
    requires n <= |walks|
  {
    forall id: nat ::
      && (id in lists ==> lists[id] != [])
      && At(lists, id) == if id in closed then [] else Reaching(walks, edges, closed, n, id)
  }

  /** The lists in the middle of walk `n`: its consumer is on the lists of the nodes in `seen`. */
  ghost predicate ListsDuring(before: map<nat, seq<Consumer>>, lists: map<nat, seq<Consumer>>, seen: set<nat>,
                              consumer: Consumer) {
    forall id: nat ::
      && (id in lists ==> lists[id] != [])
      && At(lists, id) == At(before, id) + (if id in seen then [consumer] else [])
  }

  method MaterializedOf(nodes: seq<PlanNode>) returns (ids: seq<nat>)
    ensures (set id | id in ids) == MaterializedIds(nodes)
    ensures ids == MaterializedIdList(nodes)
  {
    ids := [];
    for i := 0 to |nodes|
      invariant ids == MaterializedIdList(nodes[..i])
    {
      assert nodes[..i + 1][..i] == nodes[..i];
      if nodes[i].materialized { ids := ids + [nodes[i].id]; }
    }
    assert nodes[..|nodes|] == nodes;
    MaterializedListed(nodes);
  }

  function MaterializedIdList(nodes: seq<PlanNode>): seq<nat> {
    if nodes == [] then []
    else
      var last := nodes[|nodes| - 1];
      MaterializedIdList(nodes[..|nodes| - 1]) + (if last.materialized then [last.id] else [])
  }

  lemma {:induction false} MaterializedListed(nodes: seq<PlanNode>)
    ensures (set id | id in MaterializedIdList(nodes)) == MaterializedIds(nodes)
  {
    if nodes != [] {
      var prefix, last := nodes[..|nodes| - 1], nodes[|nodes| - 1];
      MaterializedListed(prefix);
      forall id ensures id in MaterializedIds(nodes) <==> id in MaterializedIds(prefix) || (last.materialized && id == last.id) {
        if id in MaterializedIds(prefix) {
          var i :| 0 <= i < |prefix| && prefix[i].materialized && prefix[i].id == id;
          assert nodes[i].materialized && nodes[i].id == id;
        }
        if last.materialized && id == last.id { assert nodes[|nodes| - 1].id == id; }
      }
      assert forall id :: id in MaterializedIdList(nodes) <==> id in MaterializedIdList(prefix) || (last.materialized && id == last.id);
    }
  }

  /** The walks as the program chains them: queries, then materialized nodes. */
  method BuildWalks(dag: PlanDag, materialized: seq<nat>) returns (walks: seq<Walk>)
    requires materialized == MaterializedIdList(dag.nodes)
    ensures walks == AllWalks(dag)
  {
    var starts := QueryStarts(dag);
    walks := [];
    for q := 0 to |starts|
      invariant walks == QueryWalks(dag, q)
    {
      walks := walks + [Walk(Query(q), starts[q])];
    }
    ghost var queries := walks;
    for i := 0 to |materialized|
      invariant walks == queries + MaterializedPart(dag.edges, materialized[..i])
    {
      assert materialized[..i + 1][..i] == materialized[..i];
      walks := walks + [Walk(Materialized(materialized[i]), Inputs(dag.edges, materialized[i]))];
    }
    assert materialized[..|materialized|] == materialized;
    MaterializedPartIs(dag.edges, dag.nodes);
  }

  ghost function MaterializedPart(edges: seq<Edge>, ids: seq<nat>): seq<Walk> {
    if ids == [] then []
    else MaterializedPart(edges, ids[..|ids| - 1]) + [Walk(Materialized(ids[|ids| - 1]), Inputs(edges, ids[|ids| - 1]))]
  }

  lemma {:induction false} MaterializedPartIs(edges: seq<Edge>, nodes: seq<PlanNode>)
    ensures MaterializedPart(edges, MaterializedIdList(nodes)) == MaterializedWalks(edges, nodes)
  {
    if nodes != [] {
      var ids, last := MaterializedIdList(nodes[..|nodes| - 1]), nodes[|nodes| - 1];
      MaterializedPartIs(edges, nodes[..|nodes| - 1]);
      if last.materialized {
        assert MaterializedIdList(nodes) == ids + [last.id];
        assert (ids + [last.id])[..|ids|] == ids;
      } else {
        assert MaterializedIdList(nodes) == ids;
      }
    }
  }

  /** One consumer's walk: it stops at materialized nodes and lists the consumer once on every other node it meets. */
  method WalkOne(edges: seq<Edge>, closed: set<nat>, consumer: Consumer, start: seq<nat>,
                 before: map<nat, seq<Consumer>>)
    returns (lists: map<nat, seq<Consumer>>, ghost seen: set<nat>)
    requires forall id: nat :: id in before ==> before[id] != []
    ensures forall id: nat :: id in seen <==> id !in closed && Reaches(edges, start, closed, id)
    ensures ListsDuring(before, lists, seen, consumer)
  {
    hide Walking, Reaches, ListsDuring;
    NothingPushed(before, consumer);
    lists := before;
    seen := {};
    var marked: set<nat> := {};
    var stack := start;
    ghost var met: set<nat> := {};
    WalkStarts(edges, start, closed);
    while stack != []
      invariant Walking(edges, start, closed, met, stack)
      invariant seen == met - closed && marked == seen
      invariant seen <= Universe(edges, start)
      invariant forall id :: id in stack ==> id in Universe(edges, start)
      invariant ListsDuring(before, lists, seen, consumer)
      decreases Universe(edges, start) - seen, |stack|
    {
      var id := stack[|stack| - 1];
      ghost var popped := stack;
      StackTop(stack);
      stack := stack[..|stack| - 1];
      if id in closed || id in marked {
        if id in closed {
          WalkStops(edges, start, closed, met, popped);
          met := met + {id};
        } else {
          WalkSkips(edges, start, closed, met, popped);
        }
      } else {
        WalkDescends(edges, start, closed, met, popped);
        InputsAreProducers(edges, id);
        PushedOne(before, lists, seen, consumer, id);
        marked := marked + {id};
        seen := seen + {id};
        met := met + {id};
        lists := Push(lists, id, consumer);
        stack := stack + Inputs(edges, id);
      }
    }
    WalkEnds(edges, start, closed, met);
  }

  lemma NothingPushed(before: map<nat, seq<Consumer>>, consumer: Consumer)
    requires forall id: nat :: id in before ==> before[id] != []
    ensures ListsDuring(before, before, {}, consumer)
  {
  }

  lemma PushedOne(before: map<nat, seq<Consumer>>, lists: map<nat, seq<Consumer>>, seen: set<nat>,
                  consumer: Consumer, id: nat)
    requires ListsDuring(before, lists, seen, consumer) && id !in seen
    ensures ListsDuring(before, Push(lists, id, consumer), seen + {id}, consumer)
  {
  }

  /** The consumers of each node, every walk after the other. */
  method Consumers(dag: PlanDag) returns (consumers: map<nat, seq<Consumer>>)
    ensures ListsReaching(consumers, AllWalks(dag), dag.edges, MaterializedIds(dag.nodes), |AllWalks(dag)|)
  {
    hide Reaches, ListsReaching, ListsDuring;
    var materialized := MaterializedOf(dag.nodes);
    var closed := set id | id in materialized;
    assert closed == MaterializedIds(dag.nodes);
    var walks := BuildWalks(dag, materialized);
    consumers := map[];
    NoWalks(walks, dag.edges, closed);
    for i := 0 to |walks|
      invariant ListsReaching(consumers, walks, dag.edges, closed, i)
    {
      ghost var seen;
      var before := consumers;
      NoneEmpty(before, walks, dag.edges, closed, i);
      consumers, seen := WalkOne(dag.edges, closed, walks[i].consumer, walks[i].start, before);
      OneWalkMore(before, consumers, walks, dag.edges, closed, i, seen);
    }
  }

  lemma NoWalks(walks: seq<Walk>, edges: seq<Edge>, closed: set<nat>)
    ensures ListsReaching(map[], walks, edges, closed, 0)
  {
  }

  lemma NoneEmpty(lists: map<nat, seq<Consumer>>, walks: seq<Walk>, edges: seq<Edge>, closed: set<nat>, n: nat)
    requires n <= |walks| && ListsReaching(lists, walks, edges, closed, n)
    ensures forall id: nat :: id in lists ==> lists[id] != []
  {
  }

  lemma OneWalkMore(before: map<nat, seq<Consumer>>, lists: map<nat, seq<Consumer>>, walks: seq<Walk>, edges: seq<Edge>,
                    closed: set<nat>, n: nat, seen: set<nat>)
    requires n < |walks| && ListsReaching(before, walks, edges, closed, n)
    requires forall id: nat :: id in seen <==> id !in closed && Reaches(edges, walks[n].start, closed, id)
    requires ListsDuring(before, lists, seen, walks[n].consumer)
    ensures ListsReaching(lists, walks, edges, closed, n + 1)
  {
    hide Reaches;
  }

  ghost predicate HasReached(reached: map<nat, seq<nat>>, dag: PlanDag, n: nat) {
    forall id: nat :: At(reached, id) == QueriesReaching(dag, n, id)
  }

  /** The query is listed last for every node met and nothing else has changed. */
  ghost predicate QueryOnMet(before: map<nat, seq<nat>>, reached: map<nat, seq<nat>>, met: set<nat>, query: nat) {
    forall id: nat :: At(reached, id) == At(before, id) + (if id in met then [query] else [])
  }

  lemma NoneMet(before: map<nat, seq<nat>>, query: nat)
    ensures QueryOnMet(before, before, {}, query)
  {
  }

  lemma HasMet(before: map<nat, seq<nat>>, reached: map<nat, seq<nat>>, met: set<nat>, query: nat, id: nat)
    requires QueryOnMet(before, reached, met, query) && query !in At(before, id)
    requires At(reached, id) != [] && At(reached, id)[|At(reached, id)| - 1] == query
    ensures id in met
  {
    assert id !in met ==> At(reached, id) == At(before, id);
  }

  lemma HasNotMet(before: map<nat, seq<nat>>, reached: map<nat, seq<nat>>, met: set<nat>, query: nat, id: nat)
    requires QueryOnMet(before, reached, met, query)
    requires At(reached, id) == [] || At(reached, id)[|At(reached, id)| - 1] != query
    ensures id !in met
    ensures QueryOnMet(before, Push(reached, id, query), met + {id}, query)
  {
    assert id in met ==> At(reached, id) == At(before, id) + [query];
  }

  /** One query's walk; the last entry of a node's list says whether the walk was here. */
  method ReachOne(edges: seq<Edge>, query: nat, start: seq<nat>, before: map<nat, seq<nat>>)
    returns (reached: map<nat, seq<nat>>, ghost met: set<nat>)
    requires forall id: nat :: query !in At(before, id)
    ensures forall id: nat :: id in met <==> Reaches(edges, start, {}, id)
    ensures QueryOnMet(before, reached, met, query)
  {
    hide Walking, Reaches, QueryOnMet;
    reached := before;
    met := {};
    var stack := start;
    NoneMet(before, query);
    WalkStarts(edges, start, {});
    while stack != []
      invariant Walking(edges, start, {}, met, stack)
      invariant met <= Universe(edges, start)
      invariant forall id :: id in stack ==> id in Universe(edges, start)
      invariant QueryOnMet(before, reached, met, query)
      decreases Universe(edges, start) - met, |stack|
    {
      var id := stack[|stack| - 1];
      ghost var popped := stack;
      StackTop(stack);
      stack := stack[..|stack| - 1];
      var queries := At(reached, id);
      if queries != [] && queries[|queries| - 1] == query {
        HasMet(before, reached, met, query, id);
        WalkSkips(edges, start, {}, met, popped);
      } else {
        WalkDescends(edges, start, {}, met, popped);
        InputsAreProducers(edges, id);
        HasNotMet(before, reached, met, query, id);
        reached := Push(reached, id, query);
        met := met + {id};
        stack := stack + Inputs(edges, id);
      }
    }
    WalkEnds(edges, start, {}, met);
  }

  /** The queries reaching each node, through any node. */
  method ReachedQueries(dag: PlanDag) returns (reached: map<nat, seq<nat>>)
    ensures HasReached(reached, dag, dag.QueryCount())
  {
    hide Reaches, HasReached;
    var starts := QueryStarts(dag);
    reached := map[];
    NothingReached(dag);
    for query := 0 to |starts|
      invariant HasReached(reached, dag, query)
    {
      NotYetReached(reached, dag, query);
      ghost var met;
      var before := reached;
      reached, met := ReachOne(dag.edges, query, starts[query], before);
      NowReached(before, reached, dag, query, met);
    }
  }

  lemma NothingReached(dag: PlanDag)
    ensures HasReached(map[], dag, 0)
  {
  }

  lemma NotYetReached(reached: map<nat, seq<nat>>, dag: PlanDag, query: nat)
    requires HasReached(reached, dag, query)
    ensures forall id: nat :: query !in At(reached, id)
  {
    forall id: nat ensures query !in At(reached, id) { QueriesBelow(dag, query, id); }
  }

  lemma NowReached(before: map<nat, seq<nat>>, reached: map<nat, seq<nat>>, dag: PlanDag, query: nat, met: set<nat>)
    requires HasReached(before, dag, query)
    requires forall id: nat :: id in met <==> Reaches(dag.edges, StartOf(dag, query), {}, id)
    requires QueryOnMet(before, reached, met, query)
    ensures HasReached(reached, dag, query + 1)
  {
    hide Reaches;
  }

  ghost function QueriesReaching(dag: PlanDag, n: nat, id: nat): seq<nat> {
    if n == 0 then []
    else QueriesReaching(dag, n - 1, id) + (if Reaches(dag.edges, StartOf(dag, n - 1), {}, id) then [n - 1] else [])
  }

  /** They are the queries with a path to the node, ascending. */
  lemma {:induction false} QueriesBelow(dag: PlanDag, n: nat, id: nat)
    ensures forall q: nat :: q in QueriesReaching(dag, n, id) <==> q < n && Reaches(dag.edges, StartOf(dag, q), {}, id)
    ensures forall i, j :: 0 <= i < j < |QueriesReaching(dag, n, id)| ==>
      QueriesReaching(dag, n, id)[i] < QueriesReaching(dag, n, id)[j]
  {
    hide Reaches;
    if n > 0 {
      QueriesBelow(dag, n - 1, id);
      var before := QueriesReaching(dag, n - 1, id);
      forall i | 0 <= i < |before| ensures before[i] < n - 1 { assert before[i] in before; }
    }
  }

  // ------------------------------------------- who consumes, and how often

  ghost predicate DistinctConsumers(walks: seq<Walk>) {
    forall i, j :: 0 <= i < j < |walks| ==> walks[i].consumer != walks[j].consumer
  }

  lemma {:induction false} QueryWalksAre(dag: PlanDag, n: nat)
    ensures |QueryWalks(dag, n)| == n
    ensures forall q :: 0 <= q < n ==> QueryWalks(dag, n)[q] == Walk(Query(q), StartOf(dag, q))
  {
    if n > 0 { QueryWalksAre(dag, n - 1); }
  }

  lemma {:induction false} MaterializedWalksAre(edges: seq<Edge>, nodes: seq<PlanNode>)
    requires forall i, j :: 0 <= i < j < |nodes| ==> nodes[i].id != nodes[j].id
    ensures forall w :: w in MaterializedWalks(edges, nodes) <==>
      w.consumer.Materialized? && w.consumer.node in MaterializedIds(nodes) && w.start == Inputs(edges, w.consumer.node)
    ensures DistinctConsumers(MaterializedWalks(edges, nodes))
  {
    if nodes != [] {
      var prefix, last := nodes[..|nodes| - 1], nodes[|nodes| - 1];
      MaterializedWalksAre(edges, prefix);
      forall id ensures id in MaterializedIds(nodes) <==> id in MaterializedIds(prefix) || (last.materialized && id == last.id) {
        if id in MaterializedIds(prefix) {
          var i :| 0 <= i < |prefix| && prefix[i].materialized && prefix[i].id == id;
          assert nodes[i].materialized && nodes[i].id == id;
        }
        if last.materialized && id == last.id { assert nodes[|nodes| - 1].id == id; }
      }
      var before := MaterializedWalks(edges, prefix);
      forall i | 0 <= i < |before| ensures before[i].consumer != Materialized(last.id) {
        assert before[i] in before;
      }
    }
  }

  /** A consumer is listed exactly once by the walk it names, when that walk reaches the node. */
  lemma {:induction false} ListedOnce(walks: seq<Walk>, edges: seq<Edge>, closed: set<nat>, n: nat, id: nat)
    requires n <= |walks| && DistinctConsumers(walks)
    ensures forall c :: c in Reaching(walks, edges, closed, n, id) <==>
      exists i :: 0 <= i < n && walks[i].consumer == c && Reaches(edges, walks[i].start, closed, id)
    ensures forall i, j :: 0 <= i < j < |Reaching(walks, edges, closed, n, id)| ==>
      Reaching(walks, edges, closed, n, id)[i] != Reaching(walks, edges, closed, n, id)[j]
  {
    if n > 0 {
      ListedOnce(walks, edges, closed, n - 1, id);
      var before, last := Reaching(walks, edges, closed, n - 1, id), walks[n - 1].consumer;
      forall i | 0 <= i < |before| ensures before[i] != last {
        assert before[i] in before;
        var j :| 0 <= j < n - 1 && walks[j].consumer == before[i] && Reaches(edges, walks[j].start, closed, id);
      }
    }
  }

  /** Whether `c`'s walk down its inputs meets `id` before any materialized node. */
  ghost predicate Consumes(dag: PlanDag, c: Consumer, id: nat) {
    && id !in MaterializedIds(dag.nodes)
    && match c
       case Query(q) => q < dag.QueryCount() && Reaches(dag.edges, StartOf(dag, q), MaterializedIds(dag.nodes), id)
       case Materialized(node) =>
         && node in MaterializedIds(dag.nodes)
         && Reaches(dag.edges, Inputs(dag.edges, node), MaterializedIds(dag.nodes), id)
  }

  /**
   A node's consumers: exactly the queries and materialized nodes from which a
   path passes only nodes that are not materialized, each listed once.
   */
  lemma ConsumersAreThePathsUp(dag: PlanDag, consumers: map<nat, seq<Consumer>>, id: nat)
    requires dag.DistinctIds()
    requires ListsReaching(consumers, AllWalks(dag), dag.edges, MaterializedIds(dag.nodes), |AllWalks(dag)|)
    ensures forall c :: c in At(consumers, id) <==> Consumes(dag, c, id)
    ensures forall i, j :: 0 <= i < j < |At(consumers, id)| ==> At(consumers, id)[i] != At(consumers, id)[j]
    ensures id in consumers <==> exists c :: Consumes(dag, c, id)
  {
    hide Reaches;
    var walks, closed := AllWalks(dag), MaterializedIds(dag.nodes);
    WalksAre(dag);
    ListedOnce(walks, dag.edges, closed, |walks|, id);
    forall c | Consumes(dag, c, id) ensures c in At(consumers, id) {
      var w := if c.Query? then Walk(c, StartOf(dag, c.query)) else Walk(c, Inputs(dag.edges, c.node));
      assert w in walks;
      var i :| 0 <= i < |walks| && walks[i] == w;
    }
    forall c | c in At(consumers, id) ensures Consumes(dag, c, id) {
      var i :| 0 <= i < |walks| && walks[i].consumer == c && Reaches(dag.edges, walks[i].start, closed, id);
      assert walks[i] in walks;
    }
    if id in consumers { assert consumers[id][0] in At(consumers, id); }
  }

  lemma WalksAre(dag: PlanDag)
    requires dag.DistinctIds()
    ensures DistinctConsumers(AllWalks(dag))
    ensures forall w :: w in AllWalks(dag) <==>
      match w.consumer
      case Query(q) => q < dag.QueryCount() && w.start == StartOf(dag, q)
      case Materialized(node) => node in MaterializedIds(dag.nodes) && w.start == Inputs(dag.edges, node)
  {
    var n := dag.QueryCount();
    QueryWalksAre(dag, n);
    MaterializedWalksAre(dag.edges, dag.nodes);
    var walks, queries, materialized := AllWalks(dag), QueryWalks(dag, n), MaterializedWalks(dag.edges, dag.nodes);
    assert walks == queries + materialized;
    hide MaterializedIds, StartOf, Inputs, QueryWalks, MaterializedWalks, AllWalks, DistinctConsumers;
    DistinctAcross(queries, materialized);
    assert forall w :: w in walks <==> w in queries || w in materialized;
    forall w: Walk | w.consumer.Query? && w.consumer.query < n && w.start == StartOf(dag, w.consumer.query)
      ensures w in queries
    {
      assert queries[w.consumer.query] == w;
    }
  }

  lemma DistinctAcross(queries: seq<Walk>, materialized: seq<Walk>)
    requires forall q :: 0 <= q < |queries| ==> queries[q].consumer == Query(q)
    requires DistinctConsumers(materialized) && forall w :: w in materialized ==> w.consumer.Materialized?
    ensures DistinctConsumers(queries + materialized)
  {
    var walks, n := queries + materialized, |queries|;
    forall i, j | 0 <= i < j < |walks| ensures walks[i].consumer != walks[j].consumer {
      if i < n {
        assert walks[i] == queries[i];
        if j < n { assert walks[j] == queries[j]; } else { assert walks[j] in materialized; }
      } else {
        assert walks[i] == materialized[i - n] && walks[j] == materialized[j - n];
      }
    }
  }
}
