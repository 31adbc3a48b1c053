/**
 The flat DAG of the nodes some roots reach in a table of serialized operators
 (tools/dag-viewer/stages.js:178-197).
 */
module ViewerDags {
  import opened Results
  import opened ViewerOperators

  /** A table node: its operator and everything else about it. */
  datatype TableNode = TableNode(operator: Json, rest: Json)

  predicate InTable(table: seq<TableNode>, id: int) {
    0 <= id < |table|
  }

  function Refs(table: seq<TableNode>, id: int): seq<int>
    requires InTable(table, id)
  {
    References(table[id].operator)
  }

  // ------------------------------------------------------- reachability

  /** Table nodes, each read by the one before. */
  ghost predicate IsChain(table: seq<TableNode>, path: seq<int>) {
    && path != [] && (forall k :: 0 <= k < |path| ==> InTable(table, path[k]))
    && forall k :: 0 <= k < |path| - 1 ==> path[k + 1] in Refs(table, path[k])
  }

  ghost predicate Reaches(table: seq<TableNode>, roots: seq<int>, id: int) {
    exists path :: IsChain(table, path) && path[0] in roots && path[|path| - 1] == id
  }

  lemma ReachesRoot(table: seq<TableNode>, roots: seq<int>, id: int)
    requires id in roots && InTable(table, id)
    ensures Reaches(table, roots, id)
  {
    assert IsChain(table, [id]);
  }

  lemma ReachesRead(table: seq<TableNode>, roots: seq<int>, id: int, child: int)
    requires Reaches(table, roots, id) && InTable(table, id) && InTable(table, child) && child in Refs(table, id)
    ensures Reaches(table, roots, child)
  {
    hide Refs;
    var path: seq<int> :| IsChain(table, path) && path[0] in roots && path[|path| - 1] == id;
    assert IsChain(table, path + [child]) && (path + [child])[0] in roots;
  }

  /** A walk in progress: what is reached and what is still to pop. */
  ghost predicate Walking(table: seq<TableNode>, roots: seq<int>, reached: set<int>, pending: seq<int>) {
    && (forall id :: id in reached ==> InTable(table, id) && Reaches(table, roots, id))
    && (forall id :: id in pending && InTable(table, id) ==> Reaches(table, roots, id))
    && (forall id :: id in roots && InTable(table, id) ==> id in reached || id in pending)
    && forall id, child :: id in reached && InTable(table, id) && child in Refs(table, id) && InTable(table, child) ==>
         child in reached || child in pending
  }

  lemma Popped(pending: seq<int>)
    requires pending != []
    ensures forall id :: id in pending <==> id in pending[..|pending| - 1] || id == pending[|pending| - 1]
  {
    assert pending == pending[..|pending| - 1] + [pending[|pending| - 1]];
  }

  lemma WalkBegins(table: seq<TableNode>, roots: seq<int>)
    ensures Walking(table, roots, {}, roots)
  {
    hide Reaches;
    forall id | id in roots && InTable(table, id) ensures Reaches(table, roots, id) { ReachesRoot(table, roots, id); }
  }

  lemma WalkSkips(table: seq<TableNode>, roots: seq<int>, reached: set<int>, pending: seq<int>)
    requires pending != [] && Walking(table, roots, reached, pending)
    requires pending[|pending| - 1] in reached || !InTable(table, pending[|pending| - 1])
    ensures Walking(table, roots, reached, pending[..|pending| - 1])
  {
    hide Reaches, Refs;
    Popped(pending);
  }

  lemma WalkReaches(table: seq<TableNode>, roots: seq<int>, reached: set<int>, pending: seq<int>)
    requires pending != [] && Walking(table, roots, reached, pending) && InTable(table, pending[|pending| - 1])
    ensures var id := pending[|pending| - 1];
      Walking(table, roots, reached + {id}, pending[..|pending| - 1] + Refs(table, id))
  {
    hide Reaches, Refs;
    var id := pending[|pending| - 1];
    Popped(pending);
    forall child | child in Refs(table, id) && InTable(table, child) ensures Reaches(table, roots, child) {
      ReachesRead(table, roots, id, child);
    }
  }

  lemma WalkEnds(table: seq<TableNode>, roots: seq<int>, reached: set<int>)
    requires Walking(table, roots, reached, [])
    ensures forall id :: id in reached <==> InTable(table, id) && Reaches(table, roots, id)
  {
    hide Refs;
    forall id | InTable(table, id) && Reaches(table, roots, id) ensures id in reached {
      var path: seq<int> :| IsChain(table, path) && path[0] in roots && path[|path| - 1] == id;
      ChainReached(table, roots, reached, path, |path| - 1);
    }
  }

  lemma {:induction false} ChainReached(table: seq<TableNode>, roots: seq<int>, reached: set<int>, path: seq<int>,
                                        k: nat)
    requires Walking(table, roots, reached, []) && IsChain(table, path) && path[0] in roots && k < |path|
    ensures path[k] in reached
  {
    hide Refs, Reaches;
    if k > 0 {
      ChainReached(table, roots, reached, path, k - 1);
      assert path[k - 1 + 1] in Refs(table, path[k - 1]);
    }
  }

  method ReachedIds(table: seq<TableNode>, roots: seq<int>) returns (reached: set<int>)
    ensures forall id :: id in reached <==> InTable(table, id) && Reaches(table, roots, id)
  {
    hide Walking, Refs, Reaches;
    reached := {};
    var pending := roots;
    WalkBegins(table, roots);
    ghost var all := set id: int | 0 <= id < |table| && InTable(table, id);
    while pending != []
      invariant Walking(table, roots, reached, pending)
      invariant reached <= all
      decreases all - reached, |pending|
    {
      var id := pending[|pending| - 1];
      ghost var was := pending;
      if id in reached || !InTable(table, id) {
        pending := pending[..|pending| - 1];
        WalkSkips(table, roots, reached, was);
      } else {
        WalkReaches(table, roots, reached, was);
        assert id in all - reached;
        reached := reached + {id};
        pending := pending[..|pending| - 1] + Refs(table, id);
      }
    }
    WalkEnds(table, roots, reached);
  }

  // ----------------------------------------------------- the renumbering

  predicate Ascending(ids: seq<int>) {
    forall i, j :: 0 <= i < j < |ids| ==> ids[i] < ids[j]
  }

  /** The set's members below `n`, in ascending order. */
  method SortedIds(reached: set<int>, n: nat) returns (ids: seq<int>)
    requires forall id :: id in reached ==> 0 <= id < n
    ensures Ascending(ids) && forall id :: id in ids <==> id in reached
  {
    ids := [];
    for id := 0 to n
      invariant Ascending(ids) && forall k :: k in ids <==> k in reached && k < id
      invariant forall k :: 0 <= k < |ids| ==> ids[k] < id
    {
      if id in reached { ids := ids + [id]; }
    }
  }

  function PositionOf(ids: seq<int>, id: int): (r: Option<int>)
    ensures r.Some? <==> id in ids
    ensures r.Some? ==> 0 <= r.value < |ids| && ids[r.value] == id
  {
    if ids == [] then None
    else if ids[|ids| - 1] == id then Some(|ids| - 1)
    else PositionOf(ids[..|ids| - 1], id)
  }

  function Local(ids: seq<int>): Renaming {
    (id: int) => PositionOf(ids, id)
  }

  lemma InOrder(ids: seq<int>, i: nat, j: nat)
    requires Ascending(ids) && i < |ids| && j < |ids|
    ensures i < j ==> ids[i] < ids[j]
    ensures j < i ==> ids[j] < ids[i]
  {
  }

  lemma LocalGrows(ids: seq<int>, a: int, b: int)
    requires Ascending(ids) && a in ids && b in ids && a < b
    ensures Local(ids)(a).value < Local(ids)(b).value
  {
    var i, j := PositionOf(ids, a).value, PositionOf(ids, b).value;
    InOrder(ids, i, j);
  }

  predicate InRange(table: seq<TableNode>, ids: seq<int>) {
    forall k :: 0 <= k < |ids| ==> InTable(table, ids[k])
  }

  function RenamedNode(node: TableNode, ids: seq<int>): TableNode {
    TableNode(MapLogicalChildren(node.operator, Local(ids)), node.rest)
  }

  /** The nodes of the ids, renumbered by their positions. */
  function RenumberedNodes(table: seq<TableNode>, ids: seq<int>): (nodes: seq<TableNode>)
    requires InRange(table, ids)
    ensures |nodes| == |ids| && forall i :: 0 <= i < |ids| ==> nodes[i] == RenamedNode(table[ids[i]], ids)
  {
    seq(|ids|, i requires 0 <= i < |ids| => RenamedNode(table[ids[i]], ids))
  }

  /** Ascending ids of exactly the table nodes the roots reach. */
  ghost predicate AreReached(table: seq<TableNode>, roots: seq<int>, ids: seq<int>) {
    Ascending(ids) && forall id :: id in ids <==> InTable(table, id) && Reaches(table, roots, id)
  }

  /** The nodes `ids` with their ids and references replaced by positions in `ids`, and the roots' positions. */
  ghost predicate IsRenumbered(table: seq<TableNode>, roots: seq<int>, ids: seq<int>,
                               nodes: seq<TableNode>, newRoots: seq<Option<int>>)
  {
    && InRange(table, ids)
    && nodes == RenumberedNodes(table, ids)
    && |newRoots| == |roots| && forall q :: 0 <= q < |roots| ==> newRoots[q] == Local(ids)(roots[q])
  }

  method MemoNodeDag(table: seq<TableNode>, roots: seq<int>)
    returns (nodes: seq<TableNode>, newRoots: seq<Option<int>>)
    ensures exists ids :: AreReached(table, roots, ids) && IsRenumbered(table, roots, ids, nodes, newRoots)
  {
    hide Reaches, RenamedNode;
    var reached := ReachedIds(table, roots);
    var tableIds := SortedIds(reached, |table|);
    assert InRange(table, tableIds) by {
      forall k | 0 <= k < |tableIds| ensures InTable(table, tableIds[k]) { assert tableIds[k] in tableIds; }
    }
    nodes := RenumberedNodes(table, tableIds);
    newRoots := seq(|roots|, q requires 0 <= q < |roots| => PositionOf(tableIds, roots[q]));
    assert AreReached(table, roots, tableIds) && IsRenumbered(table, roots, tableIds, nodes, newRoots);
  }

  // --------------------------------------------- the same DAG, unfolded

  /** An operator whose references can be renamed: a body with distinct fields, or no reference. */
  predicate Renameable(op: Json) {
    if BodyIsObject(op) then DistinctNames(Parts(op).1) else References(op) == []
  }

  /** Every node's references are renameable, and those in the table come before it. */
  predicate IsTable(table: seq<TableNode>) {
    forall i :: 0 <= i < |table| ==> Renameable(table[i].operator) && RefsBefore(table, i)
  }

  predicate RefsBefore(table: seq<TableNode>, i: nat)
    requires i < |table|
  {
    forall k :: 0 <= k < |Refs(table, i)| && InTable(table, Refs(table, i)[k]) ==> Refs(table, i)[k] < i
  }

  datatype Tree = Tree(shape: Json, rest: Json, children: seq<Tree>)

  /** The operator with its references blanked out, absent ones absent. */
  function Known(table: seq<TableNode>): Renaming {
    (id: int) => if InTable(table, id) then Some(0) else None
  }

  ghost predicate AllBefore(table: seq<TableNode>, id: nat, refs: seq<int>) {
    forall k :: 0 <= k < |refs| && InTable(table, refs[k]) ==> refs[k] < id
  }

  /** What a node stands for, its inputs written out. */
  ghost function Unfold(table: seq<TableNode>, id: nat): Tree
    requires IsTable(table) && id < |table|
    decreases id, |Refs(table, id)| + 1
  {
    Tree(MapLogicalChildren(table[id].operator, Known(table)), table[id].rest, UnfoldAll(table, id, Refs(table, id)))
  }

  ghost function UnfoldAll(table: seq<TableNode>, id: nat, refs: seq<int>): seq<Tree>
    requires IsTable(table) && id < |table| && AllBefore(table, id, refs)
    decreases id, |refs|
  {
    if refs == [] then []
    else
      (if InTable(table, refs[0]) then [Unfold(table, refs[0])] else []) + UnfoldAll(table, id, refs[1..])
  }

  lemma RenameableRefs(op: Json, f: Renaming)
    requires Renameable(op)
    ensures References(MapLogicalChildren(op, f)) == RenamedAll(References(op), f)
  {
    hide RenamedAll;
    ReferencesMapped(op, f);
    if !BodyIsObject(op) { NothingRenamed(f); }
  }

  lemma RenameableTwice(op: Json, f: Renaming, g: Renaming, h: Renaming)
    requires Renameable(op) && Agree(Then(f, g), h, References(op))
    ensures MapLogicalChildren(MapLogicalChildren(op, f), g) == MapLogicalChildren(op, h)
  {
    if BodyIsObject(op) { OperatorMapTwice(op, f, g, h); }
  }

  lemma {:induction false} RenamedInRange(refs: seq<int>, ids: seq<int>, k: nat) returns (j: nat)
    requires k < |RenamedAll(refs, Local(ids))|
    ensures j < |refs| && refs[j] in ids && RenamedAll(refs, Local(ids))[k] == Local(ids)(refs[j]).value
  {
    var head := if refs[0] in ids then [Local(ids)(refs[0]).value] else [];
    if k < |head| {
      j := 0;
    } else {
      var rest := RenamedInRange(refs[1..], ids, k - |head|);
      j := rest + 1;
    }
  }

  /** The ids listed hold every table node their nodes read. */
  predicate ClosedUnderRefs(table: seq<TableNode>, ids: seq<int>)
    requires InRange(table, ids)
  {
    forall i, k :: 0 <= i < |ids| && 0 <= k < |Refs(table, ids[i])| && InTable(table, Refs(table, ids[i])[k]) ==>
      Refs(table, ids[i])[k] in ids
  }

  lemma ReachedIsClosed(table: seq<TableNode>, roots: seq<int>, ids: seq<int>)
    requires AreReached(table, roots, ids) && InRange(table, ids)
    ensures ClosedUnderRefs(table, ids)
  {
    hide Reaches, Refs;
    forall i, k | 0 <= i < |ids| && 0 <= k < |Refs(table, ids[i])| && InTable(table, Refs(table, ids[i])[k])
      ensures Refs(table, ids[i])[k] in ids
    {
      assert ids[i] in ids;
      ReachesRead(table, roots, ids[i], Refs(table, ids[i])[k]);
    }
  }

  /** Children still come before their parents, and nothing is read outside the new nodes. */
  lemma RenumberedOrder(table: seq<TableNode>, ids: seq<int>, i: nat, k: nat)
    requires IsTable(table) && Ascending(ids) && InRange(table, ids) && i < |ids|
    requires k < |Refs(RenumberedNodes(table, ids), i)|
    ensures 0 <= Refs(RenumberedNodes(table, ids), i)[k] < i
  {
    var op := table[ids[i]].operator;
    RenameableRefs(op, Local(ids));
    var j := RenamedInRange(References(op), ids, k);
    var child := References(op)[j];
    hide References, MapLogicalChildren;
    assert RefsBefore(table, ids[i]);
    assert child == Refs(table, ids[i])[j];
    ChildIsListed(table, ids, child);
    LocalGrows(ids, child, ids[i]);
    LocalOfIndex(ids, i);
  }

  lemma ChildIsListed(table: seq<TableNode>, ids: seq<int>, child: int)
    requires InRange(table, ids) && child in ids
    ensures InTable(table, child)
  {
  }

  lemma ListedInTable(table: seq<TableNode>, ids: seq<int>)
    requires InRange(table, ids)
    ensures forall id :: id in ids ==> InTable(table, id)
  {
  }

  lemma LocalOfIndex(ids: seq<int>, i: nat)
    requires Ascending(ids) && i < |ids|
    ensures Local(ids)(ids[i]) == Some(i)
  {
    var p := PositionOf(ids, ids[i]).value;
    InOrder(ids, i, p);
  }

  lemma RenumberedIsTable(table: seq<TableNode>, ids: seq<int>)
    requires IsTable(table) && Ascending(ids) && InRange(table, ids)
    ensures IsTable(RenumberedNodes(table, ids))
  {
    var nodes := RenumberedNodes(table, ids);
    forall i | 0 <= i < |nodes| ensures Renameable(nodes[i].operator) && RefsBefore(nodes, i) {
      RenamedIsRenameable(table[ids[i]].operator, Local(ids));
      hide References, Renameable, RenamedNode;
      forall k | 0 <= k < |Refs(nodes, i)| && InTable(nodes, Refs(nodes, i)[k]) ensures Refs(nodes, i)[k] < i {
        RenumberedOrder(table, ids, i, k);
      }
    }
  }

  lemma RenamedIsRenameable(op: Json, f: Renaming)
    requires Renameable(op)
    ensures Renameable(MapLogicalChildren(op, f))
  {
    if BodyIsObject(op) {
      MappedParts(op, f);
      MapBodyIs(Parts(op).1, f);
      hide MapBody, Parts;
      forall i, j | 0 <= i < j < |Parts(op).1|
        ensures MapBody(Parts(op).1, f)[i].name != MapBody(Parts(op).1, f)[j].name
      {
        assert Parts(op).1[i].name != Parts(op).1[j].name;
      }
    }
  }

  /** Each renumbered node unfolds to what its table node does. */
  lemma {:induction false} UnfoldsAlike(table: seq<TableNode>, ids: seq<int>, i: nat)
    requires IsTable(table) && Ascending(ids) && InRange(table, ids) && ClosedUnderRefs(table, ids) && i < |ids|
    ensures IsTable(RenumberedNodes(table, ids))
    ensures Unfold(RenumberedNodes(table, ids), i) == Unfold(table, ids[i])
    decreases i, |Refs(table, ids[i])| + 1
  {
    RenumberedIsTable(table, ids);
    var nodes := RenumberedNodes(table, ids);
    var op, refs := table[ids[i]].operator, Refs(table, ids[i]);
    RenameableRefs(op, Local(ids));
    ListedInTable(table, ids);
    forall k | 0 <= k < |refs| ensures Then(Local(ids), Known(nodes))(refs[k]) == Known(table)(refs[k]) {
      assert InTable(table, refs[k]) <==> refs[k] in ids;
    }
    RenameableTwice(op, Local(ids), Known(nodes), Known(table));
    assert Refs(nodes, i) == RenamedAll(refs, Local(ids));
    assert AllBefore(table, ids[i], refs) by { assert RefsBefore(table, ids[i]); }
    assert AllBefore(nodes, i, Refs(nodes, i)) by { assert RefsBefore(nodes, i); }
    assert Listed(table, ids, refs);
    hide IsTable, MapLogicalChildren, References, Renameable, InRange, Ascending, ClosedUnderRefs, AllBefore, Listed;
    UnfoldAllAlike(table, ids, i, refs);
  }

  /** Every one of the refs that is in the table is among the ids. */
  predicate Listed(table: seq<TableNode>, ids: seq<int>, refs: seq<int>) {
    forall k :: 0 <= k < |refs| && InTable(table, refs[k]) ==> refs[k] in ids
  }

  lemma {:induction false} UnfoldAllAlike(table: seq<TableNode>, ids: seq<int>, i: nat, refs: seq<int>)
    requires IsTable(table) && Ascending(ids) && InRange(table, ids) && ClosedUnderRefs(table, ids) && i < |ids|
    requires AllBefore(table, ids[i], refs) && Listed(table, ids, refs)
    requires IsTable(RenumberedNodes(table, ids))
        && AllBefore(RenumberedNodes(table, ids), i, RenamedAll(refs, Local(ids)))
    ensures UnfoldAll(RenumberedNodes(table, ids), i, RenamedAll(refs, Local(ids))) == UnfoldAll(table, ids[i], refs)
    decreases i, |refs|
  {
    hide IsTable, MapLogicalChildren, References, Renameable, ClosedUnderRefs, RenamedNode;
    var nodes := RenumberedNodes(table, ids);
    if refs != [] {
      var f, child := Local(ids), refs[0];
      var rest := RenamedAll(refs[1..], f);
      if InTable(table, child) {
        var p := f(child).value;
        assert RenamedAll(refs, f) == [p] + rest;
        assert p < i by { assert child < ids[i]; LocalGrows(ids, child, ids[i]); LocalOfIndex(ids, i); }
        AllBeforeRest(nodes, i, p, rest);
        UnfoldsAlike(table, ids, p);
        UnfoldAllAlike(table, ids, i, refs[1..]);
        UnfoldAllStep(nodes, i, p, rest);
      } else {
        ListedInTable(table, ids);
        assert RenamedAll(refs, f) == rest;
        UnfoldAllAlike(table, ids, i, refs[1..]);
      }
    }
  }

  lemma AllBeforeRest(nodes: seq<TableNode>, i: nat, p: int, rest: seq<int>)
    requires AllBefore(nodes, i, [p] + rest)
    ensures AllBefore(nodes, i, rest)
  {
    forall k | 0 <= k < |rest| && InTable(nodes, rest[k]) ensures rest[k] < i { assert ([p] + rest)[k + 1] == rest[k]; }
  }

  lemma UnfoldAllStep(nodes: seq<TableNode>, i: nat, p: nat, rest: seq<int>)
    requires IsTable(nodes) && i < |nodes| && AllBefore(nodes, i, [p] + rest) && AllBefore(nodes, i, rest)
        && p < |nodes|
    ensures UnfoldAll(nodes, i, [p] + rest) == [Unfold(nodes, p)] + UnfoldAll(nodes, i, rest)
  {
    hide IsTable, MapLogicalChildren, References;
    assert ([p] + rest)[1..] == rest;
  }

  /**
   The flat DAG is the table's below its roots: exactly the reached nodes,
   children first, and each root's unfolding unchanged.
   */
  lemma DagIsTable(table: seq<TableNode>, roots: seq<int>, nodes: seq<TableNode>, newRoots: seq<Option<int>>,
                   ids: seq<int>)
    requires IsTable(table) && AreReached(table, roots, ids) && InRange(table, ids)
    requires nodes == RenumberedNodes(table, ids)
    requires |newRoots| == |roots| && forall q :: 0 <= q < |roots| ==> newRoots[q] == Local(ids)(roots[q])
    ensures IsTable(nodes)
    ensures forall i, k :: 0 <= i < |nodes| && 0 <= k < |Refs(nodes, i)| ==> 0 <= Refs(nodes, i)[k] < i
    ensures forall q :: 0 <= q < |roots| ==> (newRoots[q].Some? <==> InTable(table, roots[q]))
    ensures forall q :: 0 <= q < |roots| && InTable(table, roots[q]) ==>
      0 <= newRoots[q].value < |nodes| && Unfold(nodes, newRoots[q].value) == Unfold(table, roots[q])
  {
    RenumberedIsTable(table, ids);
    ReachedIsClosed(table, roots, ids);
    forall q | 0 <= q < |roots| ensures newRoots[q].Some? <==> InTable(table, roots[q]) {
      if InTable(table, roots[q]) { ReachesRoot(table, roots, roots[q]); }
    }
    hide IsTable, Refs, Unfold, Reaches, RenumberedNodes;
    forall i, k | 0 <= i < |nodes| && 0 <= k < |Refs(nodes, i)| ensures 0 <= Refs(nodes, i)[k] < i {
      RenumberedOrder(table, ids, i, k);
    }
    forall q | 0 <= q < |roots| && InTable(table, roots[q])
      ensures 0 <= newRoots[q].value < |nodes| && Unfold(nodes, newRoots[q].value) == Unfold(table, roots[q])
    {
      UnfoldsAlike(table, ids, newRoots[q].value);
    }
  }
}
