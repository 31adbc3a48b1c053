/**
 The flat DAG of a plan's operators: the nodes the planner's own edges reach,
 with every input renumbered in it (tools/dag-viewer/stages.js:178-197,
 crates/types/src/ir/operator/node.rs:35-47).
 */
module ViewerPlanDags {
  import opened Results
  import opened ViewerDags
  import opened ViewerOperatorForms
  import opened ViewerOperators
  import opened ViewerScalarForms

  datatype PlanNode = PlanNode(op: PlanOp, rest: Json)

  function Row(node: PlanNode): TableNode {
    TableNode(Serialized(node.op), node.rest)
  }

  /** The memo section's table of a plan's nodes. */
  function TableOf(plan: seq<PlanNode>): (table: seq<TableNode>)
    ensures |table| == |plan| && forall i :: 0 <= i < |plan| ==> table[i] == Row(plan[i])
  {
    seq(|plan|, i requires 0 <= i < |plan| => Row(plan[i]))
  }

  /** Every node reads only nodes before it. */
  predicate ChildrenFirst(plan: seq<PlanNode>) {
    forall i :: 0 <= i < |plan| ==> forall k :: 0 <= k < |Children(plan[i].op)| ==> 0 <= Children(plan[i].op)[k] < i
  }

  /** Nodes of the plan, each read by the one before. */
  ghost predicate IsPlanChain(plan: seq<PlanNode>, path: seq<int>) {
    && path != [] && (forall k :: 0 <= k < |path| ==> 0 <= path[k] < |plan|)
    && forall k :: 0 <= k < |path| - 1 ==> path[k + 1] in Children(plan[path[k]].op)
  }

  /** Some chain of the planner's edges leads from a root to the node. */
  ghost predicate PlanReaches(plan: seq<PlanNode>, roots: seq<int>, id: int) {
    exists path :: IsPlanChain(plan, path) && path[0] in roots && path[|path| - 1] == id
  }

  lemma SameEdges(plan: seq<PlanNode>, i: nat, child: int)
    requires i < |plan|
    ensures child in Refs(TableOf(plan), i) <==> child in Children(plan[i].op)
  {
    ReferencesAreChildren(plan[i].op);
    hide References, Serialized, Children;
    SameMembers(Refs(TableOf(plan), i), Children(plan[i].op), child);
  }

  lemma SameMembers(a: seq<int>, b: seq<int>, x: int)
    requires multiset(a) == multiset(b)
    ensures x in a <==> x in b
  {
    assert x in a <==> x in multiset(a);
    assert x in b <==> x in multiset(b);
  }

  lemma SameChains(plan: seq<PlanNode>, path: seq<int>)
    ensures IsChain(TableOf(plan), path) == IsPlanChain(plan, path)
  {
    hide Refs, Children, TableOf;
    if path != [] && forall k :: 0 <= k < |path| ==> 0 <= path[k] < |plan| {
      forall k | 0 <= k < |path| - 1 ensures path[k + 1] in Refs(TableOf(plan), path[k]) <==> path[k + 1] in Children(plan[path[k]].op) {
        SameEdges(plan, path[k], path[k + 1]);
      }
    }
  }

  /** The viewer reaches in the table just what the planner's edges reach in the plan. */
  lemma ReachesAlike(plan: seq<PlanNode>, roots: seq<int>, id: int)
    ensures Reaches(TableOf(plan), roots, id) == PlanReaches(plan, roots, id)
  {
    hide IsChain, IsPlanChain, TableOf;
    forall path ensures IsChain(TableOf(plan), path) == IsPlanChain(plan, path) { SameChains(plan, path); }
    Nonempty(plan);
  }

  lemma Nonempty(plan: seq<PlanNode>)
    ensures forall path :: IsPlanChain(plan, path) ==> path != []
    ensures forall path :: IsChain(TableOf(plan), path) ==> path != []
  {
  }

  /** The table of a plan whose nodes read only earlier ones is one the viewer can flatten. */
  lemma PlanIsTable(plan: seq<PlanNode>)
    requires ChildrenFirst(plan)
    ensures IsTable(TableOf(plan))
  {
    var table := TableOf(plan);
    forall i | 0 <= i < |table| ensures Renameable(table[i].operator) && RefsBefore(table, i) {
      SerializedIsRenameable(plan[i].op);
      hide References, Serialized, Children, DistinctNames, BodyIsObject;
      forall k | 0 <= k < |Refs(table, i)| ensures Refs(table, i)[k] < i {
        SameEdges(plan, i, Refs(table, i)[k]);
        ReadsEarlier(plan, i, Refs(table, i)[k]);
      }
    }
  }

  lemma ReadsEarlier(plan: seq<PlanNode>, i: nat, child: int)
    requires ChildrenFirst(plan) && i < |plan| && child in Children(plan[i].op)
    ensures 0 <= child < i
  {
  }

  // ------------------------------------------------------ the renumbering

  /** Renamings that agree on an operator's references make one operator. */
  lemma AgreeingRenamings(op: Json, f: Renaming, h: Renaming)
    requires Renameable(op) && Agree(f, h, References(op))
    ensures MapLogicalChildren(op, f) == MapLogicalChildren(op, h)
  {
    if BodyIsObject(op) {
      var same := Total((id: int) => id);
      OperatorMapTwice(op, same, f, f);
      OperatorMapTwice(op, same, f, h);
    }
  }

  /** Where a node is in the flat DAG. */
  function Position(ids: seq<int>): int -> int {
    (id: int) => if PositionOf(ids, id).Some? then PositionOf(ids, id).value else 0
  }

  /**
   The flat DAG of a plan: exactly the nodes the planner's edges reach, in plan
   order, each the planner's own renumbering of its operator.
   */
  lemma DagOfPlan(plan: seq<PlanNode>, roots: seq<int>, ids: seq<int>)
    requires ChildrenFirst(plan) && AreReached(TableOf(plan), roots, ids)
    ensures IsTable(TableOf(plan)) && InRange(TableOf(plan), ids)
    ensures forall id :: id in ids <==> 0 <= id < |plan| && PlanReaches(plan, roots, id)
    ensures forall i :: 0 <= i < |ids| ==>
      RenumberedNodes(TableOf(plan), ids)[i]
      == Row(PlanNode(MapChildren(plan[ids[i]].op, Position(ids)), plan[ids[i]].rest))
  {
    var table := TableOf(plan);
    PlanIsTable(plan);
    forall id ensures id in ids <==> 0 <= id < |plan| && PlanReaches(plan, roots, id) { ReachesAlike(plan, roots, id); }
    forall k | 0 <= k < |ids| ensures InTable(table, ids[k]) { assert ids[k] in ids; }
    ReachedIsClosed(table, roots, ids);
    forall i | 0 <= i < |ids|
      ensures RenumberedNodes(table, ids)[i] == Row(PlanNode(MapChildren(plan[ids[i]].op, Position(ids)), plan[ids[i]].rest))
    {
      hide IsTable, Reaches, PlanReaches;
      RowRenumbered(plan, ids, i);
    }
  }

  lemma RowRenumbered(plan: seq<PlanNode>, ids: seq<int>, i: nat)
    requires ChildrenFirst(plan) && InRange(TableOf(plan), ids) && ClosedUnderRefs(TableOf(plan), ids) && i < |ids|
    ensures RenumberedNodes(TableOf(plan), ids)[i]
         == Row(PlanNode(MapChildren(plan[ids[i]].op, Position(ids)), plan[ids[i]].rest))
  {
    var table, node := TableOf(plan), plan[ids[i]];
    SerializedIsRenameable(node.op);
    var refs := References(Serialized(node.op));
    hide References, Serialized, Children, MapChildren, MapLogicalChildren;
    assert refs == Refs(table, ids[i]);
    forall k | 0 <= k < |refs| ensures Local(ids)(refs[k]) == Total(Position(ids))(refs[k]) {
      SameEdges(plan, ids[i], refs[k]);
      ReadsEarlier(plan, ids[i], refs[k]);
      assert refs[k] in ids;
    }
    AgreeingRenamings(Serialized(node.op), Local(ids), Total(Position(ids)));
    OperatorRenamed(node.op, Position(ids));
  }
}
