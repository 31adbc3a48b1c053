/**
 Joins and projections over one approximate input: the rows, their order and
 their cells keep the guarantees the planner gives their columns
 (crates/accuracy/src/propagation.rs:926-1091).
 */
module JoinSoundness {
  import opened Composition
  import opened Guarantees
  import opened LipschitzRules
  import opened Outcomes
  import opened Results
  import opened ScalarExprs
  import opened ScalarRules
  import opened ScalarSoundness

  type Row = seq<Value>

  datatype JoinKind = Inner | LeftOuter | RightOuter | FullOuter | Cross | Semi | Anti

  /** A relation: rows known by their guarantee alone, a join, or a projection. */
  datatype Node =
    | Table(id: nat, width: nat, guarantee: Option<Guarantee>)
    | Join(kind: JoinKind, condition: Expr, left: Node, right: Node, guarantee: Option<Guarantee>)
    | Project(items: seq<Expr>, child: Node, guarantee: Option<Guarantee>)

  function Width(node: Node): nat {
    match node
    case Table(_, width, _) => width
    case Join(kind, _, left, right, _) => if kind == Semi || kind == Anti then Width(left) else Width(left) + Width(right)
    case Project(items, _, _) => |items|
  }

  // ------------------------------------------------------- guarantees

  function Repeated(g: Guarantee, n: nat): (gs: seq<Guarantee>)
    ensures |gs| == n && forall c :: 0 <= c < n ==> gs[c] == g
  {
    seq(n, _ => g)
  }

  predicate KeepsBothSides(kind: JoinKind) {
    kind != Semi && kind != Anti
  }

  /** The guarantees of `left ++ right`, when at most one of them is approximate. */
  function JoinInputGuarantees(left: Node, right: Node): Option<seq<Guarantee>> {
    if !IsExactOption(left.guarantee) && !IsExactOption(right.guarantee) then None
    else if left.guarantee.None? || right.guarantee.None? then None
    else Some(Repeated(left.guarantee.value, Width(left)) + Repeated(right.guarantee.value, Width(right)))
  }

  function RowInputs(columns: seq<Guarantee>, relation: nat -> RelationGuarantee): Inputs {
    Inputs((c: nat) => if c < |columns| then Some(columns[c]) else None, relation)
  }

  function SideGuarantee(left: Node, right: Node): Option<Guarantee> {
    if left.guarantee.Some? && !left.guarantee.value.IsExact() then left.guarantee
    else if right.guarantee.Some? && !right.guarantee.value.IsExact() then right.guarantee
    else None
  }

  ghost function JoinGuarantee(kind: JoinKind, condition: Expr, left: Node, right: Node,
                               relation: nat -> RelationGuarantee):
    Option<Guarantee>
  {
    var columns := JoinInputGuarantees(left, right);
    if !KeepsBothSides(kind) || columns.None? then None
    else if !IsExactOption(ScalarGuarantee(condition, RowInputs(columns.value, relation))) then None
    else SideGuarantee(left, right)
  }

  /** A join has a guarantee exactly when it keeps both sides' columns, one side is approximate and its predicate is exact; it is that side's. */
  lemma JoinGivenIff(kind: JoinKind, condition: Expr, left: Node, right: Node, relation: nat -> RelationGuarantee, g: Guarantee)
    ensures JoinGuarantee(kind, condition, left, right, relation) == Some(g) <==>
      && (kind == Inner || kind == LeftOuter || kind == RightOuter || kind == FullOuter || kind == Cross)
      && left.guarantee.Some? && right.guarantee.Some? && left.guarantee.value.IsExact() != right.guarantee.value.IsExact()
      && g == (if left.guarantee.value.IsExact() then right.guarantee.value else left.guarantee.value)
      && IsExactOption(ScalarGuarantee(condition, BothSides(left, right, relation)))
  {
    hide IsZero, NeverFails, ScalarGuarantee, Repeated, Width, RowInputs;
  }

  /** The columns of `left` first, then those of `right`. */
  ghost function BothSides(left: Node, right: Node, relation: nat -> RelationGuarantee): Inputs
    requires left.guarantee.Some? && right.guarantee.Some?
  {
    RowInputs(Repeated(left.guarantee.value, Width(left)) + Repeated(right.guarantee.value, Width(right)), relation)
  }

  /** The columns' guarantees picked by a projection of columns. */
  function PickedColumns(items: seq<Expr>, columns: seq<Guarantee>): (r: Option<seq<Guarantee>>)
    ensures r.Some? ==> |r.value| == |items|
    ensures r.Some? ==> forall i :: 0 <= i < |items| ==>
      items[i].Column? && items[i].id < |columns| && r.value[i] == columns[items[i].id]
  {
    if items == [] then Some([])
    else
      var rest := PickedColumns(items[1..], columns);
      if items[0].Column? && items[0].id < |columns| && rest.Some? then Some([columns[items[0].id]] + rest.value) else None
  }

  /** What is known of each output column; a join's are its inputs', whatever its predicate reads. */
  function ColumnGuarantees(node: Node): Option<seq<Guarantee>> {
    if IsExactOption(node.guarantee) then Some(Repeated(node.guarantee.value, Width(node)))
    else match node
         case Join(kind, _, left, right, _) => if KeepsBothSides(kind) then JoinInputGuarantees(left, right) else None
         case Project(items, child, _) =>
           var columns := ColumnGuarantees(child);
           if columns.None? then None else PickedColumns(items, columns.value)
         case Table(_, _, _) => None
  }

  ghost function ItemGuarantees(items: seq<Expr>, inputs: Inputs): (r: Option<seq<Guarantee>>)
    ensures r.Some? ==> |r.value| == |items|
    ensures r.Some? ==> forall i :: 0 <= i < |items| ==> ScalarGuarantee(items[i], inputs) == Some(r.value[i])
  {
    if items == [] then Some([])
    else
      var head, tail := ScalarGuarantee(items[0], inputs), ItemGuarantees(items[1..], inputs);
      if head.Some? && tail.Some? then Some([head.value] + tail.value) else None
  }

  ghost function RelationalProjectGuarantee(items: seq<Expr>, child: Node,
                                            relation: nat -> RelationGuarantee): Option<Guarantee> {
    var columns := ColumnGuarantees(child);
    if columns.None? then None
    else
      var gs := ItemGuarantees(items, RowInputs(columns.value, relation));
      if gs.None? then None else Weakest(gs.value)
  }

  lemma {:induction false} ItemsGivenIff(items: seq<Expr>, inputs: Inputs)
    ensures ItemGuarantees(items, inputs).Some? == forall i :: 0 <= i < |items| ==> ScalarGuarantee(items[i], inputs).Some?
  {
    hide ScalarGuarantee;
    if items != [] {
      ItemsGivenIff(items[1..], inputs);
      assert items == [items[0]] + items[1..];
    }
  }

  /** The guarantees of a projection's items over the columns below it. */
  ghost predicate AreItemGuarantees(gs: seq<Guarantee>, items: seq<Expr>, inputs: Inputs) {
    |gs| == |items| && forall i :: 0 <= i < |items| ==> ScalarGuarantee(items[i], inputs) == Some(gs[i])
  }

  /** A projection over known columns has the weakest of its items' guarantees, given exactly when every item has one. */
  lemma ProjectGivenIff(items: seq<Expr>, child: Node, relation: nat -> RelationGuarantee, g: Guarantee)
    ensures RelationalProjectGuarantee(items, child, relation) == Some(g) <==>
      ColumnGuarantees(child).Some?
      && exists gs :: AreItemGuarantees(gs, items, RowInputs(ColumnGuarantees(child).value, relation)) && Weakest(gs) == Some(g)
  {
    hide ScalarGuarantee, Weakest, ColumnGuarantees, RowInputs;
    if ColumnGuarantees(child).Some? {
      var inputs := RowInputs(ColumnGuarantees(child).value, relation);
      ItemsGivenIff(items, inputs);
      var own := ItemGuarantees(items, inputs);
      if own.Some? {
        assert AreItemGuarantees(own.value, items, inputs);
        forall gs | AreItemGuarantees(gs, items, inputs) ensures gs == own.value {
          assert forall i :: 0 <= i < |items| ==> gs[i] == own.value[i];
        }
      }
    }
  }

  lemma {:induction false} PickedIff(items: seq<Expr>, columns: seq<Guarantee>)
    ensures PickedColumns(items, columns).Some? == forall i :: 0 <= i < |items| ==> items[i].Column? && items[i].id < |columns|
  {
    if items != [] {
      PickedIff(items[1..], columns);
      assert items == [items[0]] + items[1..];
    }
  }

  /** Output columns have guarantees exactly under exact relations, joins that keep both sides of at most one approximate one, and projections of such columns. */
  lemma ColumnsGivenIff(node: Node)
    ensures ColumnGuarantees(node).Some? ==
      (|| IsExactOption(node.guarantee)
       || (&& node.Join? && node.kind != Semi && node.kind != Anti && node.left.guarantee.Some? && node.right.guarantee.Some?
           && (node.left.guarantee.value.IsExact() || node.right.guarantee.value.IsExact()))
       || (&& node.Project? && ColumnGuarantees(node.child).Some?
           && forall i :: 0 <= i < |node.items| ==> node.items[i].Column? && node.items[i].id < |ColumnGuarantees(node.child).value|))
  {
    hide IsZero, NeverFails;
    if node.Project? && ColumnGuarantees(node.child).Some? { PickedIff(node.items, ColumnGuarantees(node.child).value); }
  }

  // -------------------------------------------------------------- rows

  /** The pairs of rows the predicate matches. */
  function MatchedPairs(condition: Expr, left: seq<Row>, right: seq<Row>, relation: nat -> Value,
                        sem: Semantics): set<(nat, nat)> {
    set i: nat, j: nat | i < |left| && j < |right| && sem.matches(None, Eval(condition, RowEnv(left[i] + right[j], relation), sem))
      :: (i, j)
  }

  function RowEnv(row: Row, relation: nat -> Value): Env {
    Env((c: nat) => if c < |row| then row[c] else Undefined, relation)
  }

  /** One output row: a row of each side, or padding. */
  datatype Pick = Pick(left: Option<nat>, right: Option<nat>)

  function MatchesOf(i: nat, n: nat, pairs: set<(nat, nat)>): seq<Pick> {
    if n == 0 then []
    else MatchesOf(i, n - 1, pairs) + if (i, n - 1) in pairs then [Pick(Some(i), Some(n - 1))] else []
  }

  function PicksOfLeft(kind: JoinKind, i: nat, n: nat, pairs: set<(nat, nat)>): seq<Pick> {
    var matched := MatchesOf(i, n, pairs);
    match kind
    case Semi => if matched != [] then [Pick(Some(i), None)] else []
    case Anti => if matched == [] then [Pick(Some(i), None)] else []
    case LeftOuter => if matched == [] then [Pick(Some(i), None)] else matched
    case FullOuter => if matched == [] then [Pick(Some(i), None)] else matched
    case _ => matched
  }

  function LeftPicks(kind: JoinKind, m: nat, n: nat, pairs: set<(nat, nat)>): seq<Pick> {
    if m == 0 then [] else LeftPicks(kind, m - 1, n, pairs) + PicksOfLeft(kind, m - 1, n, pairs)
  }

  predicate MatchedOnRight(j: nat, m: nat, pairs: set<(nat, nat)>) {
    exists i :: 0 <= i < m && (i, j) in pairs
  }

  function UnmatchedRight(m: nat, n: nat, pairs: set<(nat, nat)>): seq<Pick> {
    if n == 0 then []
    else UnmatchedRight(m, n - 1, pairs) + if MatchedOnRight(n - 1, m, pairs) then [] else [Pick(None, Some(n - 1))]
  }

  /** The output rows in order: each left row's matches or padding, then the unmatched right rows. */
  function Picks(kind: JoinKind, m: nat, n: nat, pairs: set<(nat, nat)>): seq<Pick> {
    LeftPicks(kind, m, n, pairs) + if kind == RightOuter || kind == FullOuter then UnmatchedRight(m, n, pairs) else []
  }

  function Padding(width: nat): Row {
    seq(width, _ => Undefined)
  }

  function Side(pick: Option<nat>, rows: seq<Row>, width: nat): Row {
    if pick.Some? && pick.value < |rows| then rows[pick.value] else Padding(width)
  }

  function JoinedRow(kind: JoinKind, pick: Pick, left: seq<Row>, right: seq<Row>, leftWidth: nat,
                     rightWidth: nat): Row {
    Side(pick.left, left, leftWidth) + if KeepsBothSides(kind) then Side(pick.right, right, rightWidth) else []
  }

  function RowsOf(node: Node, tables: nat -> seq<Row>, relation: nat -> Value, sem: Semantics): seq<Row> {
    match node
    case Table(id, _, _) => tables(id)
    case Join(kind, condition, left, right, _) =>
      var l, r := RowsOf(left, tables, relation, sem), RowsOf(right, tables, relation, sem);
      var picks := Picks(kind, |l|, |r|, MatchedPairs(condition, l, r, relation, sem));
      seq(|picks|, k requires 0 <= k < |picks| => JoinedRow(kind, picks[k], l, r, Width(left), Width(right)))
    case Project(items, child, _) =>
      var rows := RowsOf(child, tables, relation, sem);
      seq(|rows|, k requires 0 <= k < |rows| => EvalAll(items, RowEnv(rows[k], relation), sem))
  }

  // ---------------------------------------------- truth and estimates

  /** True tables and relations, and the estimated ones of each outcome. */
  datatype Setting = Setting(
    space: Space, tables: nat -> seq<Row>, relation: nat -> Value,
    estimatedTables: nat -> (nat -> seq<Row>), estimatedRelation: nat -> (nat -> Value), sem: Semantics)

  ghost function TrueRows(s: Setting, node: Node): seq<Row> {
    RowsOf(node, s.tables, s.relation, s.sem)
  }

  ghost function EstimatedRows(s: Setting, node: Node, w: nat): seq<Row> {
    RowsOf(node, s.estimatedTables(w), s.estimatedRelation(w), s.sem)
  }

  predicate AllWide(rows: seq<Row>, width: nat) {
    forall r :: 0 <= r < |rows| ==> |rows[r]| == width
  }

  /** Same rows in the same order: as many, each as wide. */
  predicate SameShape(xs: seq<Row>, ys: seq<Row>, width: nat) {
    |xs| == |ys| && AllWide(xs, width) && AllWide(ys, width)
  }

  /** The outcomes outside `aside` in which one cell misses its bound. */
  ghost function CellMisses(s: Setting, node: Node, aside: set<nat>, g: Guarantee, r: nat, c: nat): set<nat> {
    set w | w in s.space.outcomes && w !in aside && CellOff(g, TrueRows(s, node), EstimatedRows(s, node, w), r, c)
  }

  ghost predicate CellOff(g: Guarantee, xs: seq<Row>, ys: seq<Row>, r: nat, c: nat) {
    r < |xs| && r < |ys| && c < |xs[r]| && c < |ys[r]| && !Accurate(g, xs[r][c], ys[r][c])
  }

  ghost predicate ShapeHolds(s: Setting, node: Node, width: nat, aside: set<nat>) {
    && Weight(s.space, aside) <= 0.0
    && AllWide(TrueRows(s, node), width)
    && forall w :: w in s.space.outcomes && w !in aside ==> SameShape(TrueRows(s, node), EstimatedRows(s, node, w), width)
  }

  /** Outside `aside`, an event of no weight, the rows are the true ones and every cell keeps its column's guarantee. */
  ghost predicate RowsHold(s: Setting, node: Node, columns: seq<Guarantee>, aside: set<nat>) {
    && ShapeHolds(s, node, |columns|, aside)
    && forall r: nat, c: nat :: r < |TrueRows(s, node)| && c < |columns| ==>
         Within(s.space, CellMisses(s, node, aside, columns[c], r, c), columns[c].failure)
  }

  ghost predicate SettingRelationsHold(s: Setting, relation: nat -> RelationGuarantee) {
    IsWorld(RowWorld(s, [], (w: nat) => []), RowInputs([], relation))
  }

  /** The columns of one row as a world of their own. */
  ghost function RowWorld(s: Setting, row: Row, estimate: nat -> Row): World {
    World(s.space, RowEnv(row, s.relation), (w: nat) => RowEnv(estimate(w), s.estimatedRelation(w)), s.sem)
  }

  /** Relations' guarantees do not depend on the row beside them. */
  lemma RelationsAnyRow(s: Setting, row: Row, estimate: nat -> Row, columns: seq<Guarantee>,
                        relation: nat -> RelationGuarantee)
    requires SettingRelationsHold(s, relation)
    ensures RelationsHold(RowWorld(s, row, estimate), RowInputs(columns, relation))
  {
    hide IsSpace, Accurate, Within, AdditiveAsAbsolute;
    var bare, world := RowWorld(s, [], (w: nat) => []), RowWorld(s, row, estimate);
    forall n: nat, g | relation(n).guarantee.Some? ensures Misses(world, g, Relation(n)) == Misses(bare, g, Relation(n)) {
      forall w: nat ensures Estimate(world, Relation(n), w) == Estimate(bare, Relation(n), w) {
        RelationValue(s, row, estimate, n, w);
        RelationValue(s, [], (w: nat) => [], n, w);
      }
      RelationValue(s, row, estimate, n, 0);
      RelationValue(s, [], (w: nat) => [], n, 0);
    }
    forall n: nat | relation(n).guarantee.Some?
      ensures var g := relation(n).guarantee.value;
        Holds(world, g, Relation(n)) && Holds(world, AdditiveAsAbsolute(g, relation(n).norm), Relation(n))
    {
      var g := relation(n).guarantee.value;
      assert Holds(bare, g, Relation(n)) && Holds(bare, AdditiveAsAbsolute(g, relation(n).norm), Relation(n));
      assert Misses(world, g, Relation(n)) == Misses(bare, g, Relation(n));
      assert Misses(world, AdditiveAsAbsolute(g, relation(n).norm), Relation(n))
          == Misses(bare, AdditiveAsAbsolute(g, relation(n).norm), Relation(n));
    }
  }

  lemma RelationValue(s: Setting, row: Row, estimate: nat -> Row, n: nat, w: nat)
    ensures Truth(RowWorld(s, row, estimate), Relation(n)) == s.relation(n)
    ensures Estimate(RowWorld(s, row, estimate), Relation(n), w) == s.estimatedRelation(w)(n)
  {
    assert RowWorld(s, row, estimate).estimate(w).relation(n) == s.estimatedRelation(w)(n);
  }

  /** A row whose cells keep their columns' guarantees outside an event of no weight is a world of the algebra. */
  lemma RowIsWorld(s: Setting, row: Row, estimate: nat -> Row, columns: seq<Guarantee>,
                   relation: nat -> RelationGuarantee,
                   aside: set<nat>)
    requires SettingRelationsHold(s, relation) && |row| == |columns| && Weight(s.space, aside) <= 0.0
    requires forall w :: w in s.space.outcomes && w !in aside ==> |estimate(w)| == |columns|
    requires forall c: nat :: c < |columns| ==>
      Within(s.space, RowMisses(s, row, estimate, aside, columns[c], c), columns[c].failure)
    ensures IsWorld(RowWorld(s, row, estimate), RowInputs(columns, relation))
  {
    RelationsAnyRow(s, row, estimate, columns, relation);
    hide IsSpace, Accurate, Within, Weight, RelationsHold;
    var world, inputs := RowWorld(s, row, estimate), RowInputs(columns, relation);
    forall c: nat | inputs.column(c).Some? ensures Holds(world, inputs.column(c).value, Column(c)) {
      var missed := RowMisses(s, row, estimate, aside, columns[c], c);
      NullAdded(s.space, missed, aside, columns[c].failure);
      forall w | w in Misses(world, columns[c], Column(c)) ensures w in missed + aside {
        if w !in aside { assert !Accurate(columns[c], row[c], estimate(w)[c]); }
      }
      WithinSmaller(s.space, Misses(world, columns[c], Column(c)), missed + aside, columns[c].failure);
    }
  }

  ghost function RowMisses(s: Setting, row: Row, estimate: nat -> Row, aside: set<nat>, g: Guarantee, c: nat): set<nat>
    requires c < |row|
  {
    set w | w in s.space.outcomes && w !in aside && c < |estimate(w)| && !Accurate(g, row[c], estimate(w)[c])
  }

  // ------------------------------------------------- the join's decision

  ghost function PairRow(s: Setting, left: Node, right: Node, i: nat, j: nat): Row
    requires i < |TrueRows(s, left)| && j < |TrueRows(s, right)|
  {
    TrueRows(s, left)[i] + TrueRows(s, right)[j]
  }

  ghost function PairEstimate(s: Setting, left: Node, right: Node, i: nat, j: nat, w: nat): Row {
    var l, r := EstimatedRows(s, left, w), EstimatedRows(s, right, w);
    if i < |l| && j < |r| then l[i] + r[j] else []
  }

  lemma PairIsWorld(s: Setting, left: Node, right: Node, ls: seq<Guarantee>, rs: seq<Guarantee>,
                    relation: nat -> RelationGuarantee, a: set<nat>, b: set<nat>, i: nat, j: nat)
    requires SettingRelationsHold(s, relation)
    requires RowsHold(s, left, ls, a) && RowsHold(s, right, rs, b)
    requires i < |TrueRows(s, left)| && j < |TrueRows(s, right)|
    ensures IsWorld(RowWorld(s, PairRow(s, left, right, i, j), (w: nat) => PairEstimate(s, left, right, i, j, w)),
                    RowInputs(ls + rs, relation))
  {
    hide IsSpace, Accurate, Within, Weight, TrueRows, EstimatedRows, IsWorld;
    var estimate := (w: nat) => PairEstimate(s, left, right, i, j, w);
    var row, columns := PairRow(s, left, right, i, j), ls + rs;
    SpaceOf(s, relation);
    WeightOfUnion(s.space, a, b);
    forall w | w in s.space.outcomes && w !in a + b ensures |estimate(w)| == |columns| {
      assert SameShape(TrueRows(s, left), EstimatedRows(s, left, w), |ls|);
      assert SameShape(TrueRows(s, right), EstimatedRows(s, right, w), |rs|);
    }
    forall c: nat | c < |columns|
      ensures Within(s.space, RowMisses(s, row, estimate, a + b, columns[c], c), columns[c].failure)
    {
      PairCell(s, left, right, ls, rs, relation, a, b, i, j, c);
    }
    RowIsWorld(s, row, estimate, columns, relation, a + b);
  }

  lemma SpaceOf(s: Setting, relation: nat -> RelationGuarantee)
    requires SettingRelationsHold(s, relation)
    ensures IsSpace(s.space)
  {
  }

  lemma PairCell(s: Setting, left: Node, right: Node, ls: seq<Guarantee>, rs: seq<Guarantee>,
                 relation: nat -> RelationGuarantee, a: set<nat>, b: set<nat>, i: nat, j: nat, c: nat)
    requires SettingRelationsHold(s, relation)
    requires RowsHold(s, left, ls, a) && RowsHold(s, right, rs, b)
    requires i < |TrueRows(s, left)| && j < |TrueRows(s, right)| && c < |ls| + |rs|
    ensures c < |PairRow(s, left, right, i, j)|
    ensures Within(s.space, RowMisses(s, PairRow(s, left, right, i, j), (w: nat) => PairEstimate(s, left, right, i, j, w), a + b,
                                      (ls + rs)[c], c), (ls + rs)[c].failure)
  {
    hide IsSpace, Accurate, Within, Weight, TrueRows, EstimatedRows, SettingRelationsHold;
    SpaceOf(s, relation);
    var estimate := (w: nat) => PairEstimate(s, left, right, i, j, w);
    var row, g := PairRow(s, left, right, i, j), (ls + rs)[c];
    var cell := if c < |ls| then CellMisses(s, left, a, g, i, c) else CellMisses(s, right, b, g, j, c - |ls|);
    forall w | w in RowMisses(s, row, estimate, a + b, g, c) ensures w in cell {
      assert SameShape(TrueRows(s, left), EstimatedRows(s, left, w), |ls|);
      assert SameShape(TrueRows(s, right), EstimatedRows(s, right, w), |rs|);
    }
    WithinSmaller(s.space, RowMisses(s, row, estimate, a + b, g, c), cell, g.failure);
  }

  /** An exact predicate: outside an event of no weight every one of `pairs` matches in truth and estimate alike. */
  lemma {:induction false} PairsDecided(s: Setting, condition: Expr, left: Node, right: Node, ls: seq<Guarantee>,
                                        rs: seq<Guarantee>,
                                        relation: nat -> RelationGuarantee, a: set<nat>, b: set<nat>, pairs: set<(nat, nat)>)
    returns (aside: set<nat>)
    requires SettingRelationsHold(s, relation)
    requires RowsHold(s, left, ls, a) && RowsHold(s, right, rs, b)
    requires PredicateExact(condition, RowInputs(ls + rs, relation))
    requires forall p :: p in pairs ==> p.0 < |TrueRows(s, left)| && p.1 < |TrueRows(s, right)|
    ensures Weight(s.space, aside) <= 0.0
    ensures forall w, p :: w in s.space.outcomes && w !in aside && p in pairs ==>
      EvalPair(condition, PairRow(s, left, right, p.0, p.1), s.relation, s.sem)
        == EvalPair(condition, PairEstimate(s, left, right, p.0, p.1, w), s.estimatedRelation(w), s.sem)
    decreases |pairs|
  {
    hide IsSpace, Weight, RowsHold, TrueRows, EstimatedRows, SettingRelationsHold, PredicateExact;
    SpaceOf(s, relation);
    if pairs == {} {
      aside := {};
      NothingWeighs(s.space);
    } else {
      var p :| p in pairs;
      var rest := PairsDecided(s, condition, left, right, ls, rs, relation, a, b, pairs - {p});
      var missed := PairDecided(s, condition, left, right, ls, rs, relation, a, b, p.0, p.1);
      WeightOfUnion(s.space, rest, missed);
      aside := rest + missed;
    }
  }

  function EvalPair(condition: Expr, row: Row, relation: nat -> Value, sem: Semantics): Value {
    Eval(condition, RowEnv(row, relation), sem)
  }

  /** The predicate is exact over the columns, by the algebra and within its limits. */
  ghost predicate PredicateExact(condition: Expr, inputs: Inputs) {
    IsExactOption(ScalarGuarantee(condition, inputs)) && Admissible(condition, inputs)
  }

  lemma PairDecided(s: Setting, condition: Expr, left: Node, right: Node, ls: seq<Guarantee>, rs: seq<Guarantee>,
                    relation: nat -> RelationGuarantee, a: set<nat>, b: set<nat>, i: nat, j: nat)
    returns (missed: set<nat>)
    requires SettingRelationsHold(s, relation)
    requires RowsHold(s, left, ls, a) && RowsHold(s, right, rs, b)
    requires PredicateExact(condition, RowInputs(ls + rs, relation))
    requires i < |TrueRows(s, left)| && j < |TrueRows(s, right)|
    ensures Weight(s.space, missed) <= 0.0
    ensures forall w :: w in s.space.outcomes && w !in missed ==>
      EvalPair(condition, PairRow(s, left, right, i, j), s.relation, s.sem)
        == EvalPair(condition, PairEstimate(s, left, right, i, j, w), s.estimatedRelation(w), s.sem)
  {
    PairIsWorld(s, left, right, ls, rs, relation, a, b, i, j);
    hide IsSpace, Weight, RowsHold, TrueRows, EstimatedRows, SettingRelationsHold, Eval, ScalarGuarantee, Admissible, Holds, RowEnv;
    SpaceOf(s, relation);
    var row, estimate := PairRow(s, left, right, i, j), (w: nat) => PairEstimate(s, left, right, i, j, w);
    var world, inputs := RowWorld(s, row, estimate), RowInputs(ls + rs, relation);
    Sound(world, inputs, condition);
    missed := ExactMissed(world, ScalarGuarantee(condition, inputs).value, condition);
  }

  function AllPairs(m: nat, n: nat): set<(nat, nat)> {
    set i: nat, j: nat | i < m && j < n :: (i, j)
  }

  /** So outside an event of no weight the join picks the same rows. */
  lemma SameMatches(s: Setting, condition: Expr, left: Node, right: Node, ls: seq<Guarantee>, rs: seq<Guarantee>,
                    relation: nat -> RelationGuarantee, a: set<nat>, b: set<nat>)
    returns (aside: set<nat>)
    requires SettingRelationsHold(s, relation)
    requires RowsHold(s, left, ls, a) && RowsHold(s, right, rs, b)
    requires PredicateExact(condition, RowInputs(ls + rs, relation))
    ensures Weight(s.space, aside) <= 0.0 && a <= aside && b <= aside
    ensures forall w :: w in s.space.outcomes && w !in aside ==>
      MatchedPairs(condition, TrueRows(s, left), TrueRows(s, right), s.relation, s.sem)
        == MatchedPairs(condition, EstimatedRows(s, left, w), EstimatedRows(s, right, w), s.estimatedRelation(w), s.sem)
  {
    hide IsSpace, Weight, TrueRows, EstimatedRows, SettingRelationsHold, PredicateExact, Eval, RowEnv, Within;
    SpaceOf(s, relation);
    var pairs := AllPairs(|TrueRows(s, left)|, |TrueRows(s, right)|);
    var missed := PairsDecided(s, condition, left, right, ls, rs, relation, a, b, pairs);
    WeightOfUnion(s.space, a, b);
    WeightOfUnion(s.space, a + b, missed);
    aside := a + b + missed;
    forall w | w in s.space.outcomes && w !in aside
      ensures MatchedPairs(condition, TrueRows(s, left), TrueRows(s, right), s.relation, s.sem)
        == MatchedPairs(condition, EstimatedRows(s, left, w), EstimatedRows(s, right, w), s.estimatedRelation(w), s.sem)
    {
      assert SameShape(TrueRows(s, left), EstimatedRows(s, left, w), |ls|);
      assert SameShape(TrueRows(s, right), EstimatedRows(s, right, w), |rs|);
      SameEvals(condition, TrueRows(s, left), TrueRows(s, right), EstimatedRows(s, left, w), EstimatedRows(s, right, w),
                s.relation, s.estimatedRelation(w), s.sem) by {
        forall i: nat, j: nat | i < |TrueRows(s, left)| && j < |TrueRows(s, right)|
          ensures EvalPair(condition, TrueRows(s, left)[i] + TrueRows(s, right)[j], s.relation, s.sem)
               == EvalPair(condition, EstimatedRows(s, left, w)[i] + EstimatedRows(s, right, w)[j], s.estimatedRelation(w), s.sem)
        {
          assert (i, j) in pairs;
        }
      }
    }
  }

  lemma SameEvals(condition: Expr, xl: seq<Row>, xr: seq<Row>, yl: seq<Row>, yr: seq<Row>,
                  relation: nat -> Value, relation': nat -> Value, sem: Semantics)
    requires |xl| == |yl| && |xr| == |yr|
    requires forall i: nat, j: nat :: i < |xl| && j < |xr| ==>
      EvalPair(condition, xl[i] + xr[j], relation, sem) == EvalPair(condition, yl[i] + yr[j], relation', sem)
    ensures MatchedPairs(condition, xl, xr, relation, sem) == MatchedPairs(condition, yl, yr, relation', sem)
  {
    hide Eval;
    forall i: nat, j: nat | i < |xl| && j < |xr|
      ensures (i, j) in MatchedPairs(condition, xl, xr, relation, sem) <==> (i, j) in MatchedPairs(condition, yl, yr, relation', sem)
    {
      assert EvalPair(condition, xl[i] + xr[j], relation, sem) == EvalPair(condition, yl[i] + yr[j], relation', sem);
    }
  }

  // -------------------------------------------------------- the theorems

  lemma JoinedShape(s: Setting, node: Node, ls: seq<Guarantee>, rs: seq<Guarantee>, a: set<nat>, b: set<nat>,
                    aside: set<nat>)
    requires node.Join? && KeepsBothSides(node.kind) && |ls| == Width(node.left) && |rs| == Width(node.right)
    requires RowsHold(s, node.left, ls, a) && RowsHold(s, node.right, rs, b) && a <= aside && b <= aside
    requires Weight(s.space, aside) <= 0.0
    requires forall w :: w in s.space.outcomes && w !in aside ==> SamePairs(s, node, w)
    ensures ShapeHolds(s, node, |ls| + |rs|, aside)
  {
    hide Within, CellMisses, Weight, Picks, MatchedPairs, Width;
    JoinedWide(node, TrueRows(s, node.left), TrueRows(s, node.right), |ls|, |rs|, s.tables, s.relation, s.sem);
    forall w | w in s.space.outcomes && w !in aside
      ensures SameShape(TrueRows(s, node), EstimatedRows(s, node, w), |ls| + |rs|)
    {
      assert SamePairs(s, node, w);
      assert SameShape(TrueRows(s, node.left), EstimatedRows(s, node.left, w), |ls|);
      assert SameShape(TrueRows(s, node.right), EstimatedRows(s, node.right, w), |rs|);
      JoinedWide(node, EstimatedRows(s, node.left, w), EstimatedRows(s, node.right, w), |ls|, |rs|,
                 s.estimatedTables(w), s.estimatedRelation(w), s.sem);
    }
  }

  /** The predicate matches the same pairs in truth and estimate. */
  ghost predicate SamePairs(s: Setting, node: Node, w: nat)
    requires node.Join?
  {
    MatchedPairs(node.condition, TrueRows(s, node.left), TrueRows(s, node.right), s.relation, s.sem)
      == MatchedPairs(node.condition, EstimatedRows(s, node.left, w), EstimatedRows(s, node.right, w), s.estimatedRelation(w), s.sem)
  }

  lemma JoinedWide(node: Node, l: seq<Row>, r: seq<Row>, lw: nat, rw: nat, tables: nat -> seq<Row>,
                   relation: nat -> Value,
                   sem: Semantics)
    requires node.Join? && KeepsBothSides(node.kind) && lw == Width(node.left) && rw == Width(node.right)
    requires l == RowsOf(node.left, tables, relation, sem) && r == RowsOf(node.right, tables, relation, sem)
    requires AllWide(l, lw) && AllWide(r, rw)
    ensures var picks := Picks(node.kind, |l|, |r|, MatchedPairs(node.condition, l, r, relation, sem));
      var rows := RowsOf(node, tables, relation, sem);
      && |rows| == |picks| && AllWide(rows, lw + rw)
      && forall k :: 0 <= k < |picks| ==> rows[k] == JoinedRow(node.kind, picks[k], l, r, lw, rw)
  {
    hide Picks, MatchedPairs, Width;
  }

  /** Each cell of a joined row is a cell of one input's row, or padding. */
  lemma JoinedCell(s: Setting, node: Node, ls: seq<Guarantee>, rs: seq<Guarantee>, a: set<nat>, b: set<nat>,
                   aside: set<nat>,
                   r: nat, c: nat)
    requires IsSpace(s.space)
    requires node.Join? && KeepsBothSides(node.kind) && |ls| == Width(node.left) && |rs| == Width(node.right)
    requires RowsHold(s, node.left, ls, a) && RowsHold(s, node.right, rs, b) && a <= aside && b <= aside
    requires forall w :: w in s.space.outcomes && w !in aside ==> SamePairs(s, node, w)
    requires r < |TrueRows(s, node)| && c < |ls| + |rs|
    ensures Within(s.space, CellMisses(s, node, aside, (ls + rs)[c], r, c), (ls + rs)[c].failure)
  {
    hide Within, Weight, IsSpace, Picks, MatchedPairs, Width, Accurate;
    var L, R, g := TrueRows(s, node.left), TrueRows(s, node.right), (ls + rs)[c];
    JoinedWide(node, L, R, |ls|, |rs|, s.tables, s.relation, s.sem);
    var pick := Picks(node.kind, |L|, |R|, MatchedPairs(node.condition, L, R, s.relation, s.sem))[r];
    var source := SourceCell(s, node, ls, rs, a, b, pick, c);
    forall w | w in CellMisses(s, node, aside, g, r, c) ensures w in source {
      assert SamePairs(s, node, w);
      var L', R' := EstimatedRows(s, node.left, w), EstimatedRows(s, node.right, w);
      assert SameShape(L, L', |ls|) && SameShape(R, R', |rs|);
      JoinedWide(node, L', R', |ls|, |rs|, s.estimatedTables(w), s.estimatedRelation(w), s.sem);
      assert TrueRows(s, node)[r] == JoinedRow(node.kind, pick, L, R, |ls|, |rs|);
      assert EstimatedRows(s, node, w)[r] == JoinedRow(node.kind, pick, L', R', |ls|, |rs|);
      SourceMissed(g, node.kind, pick, L, R, L', R', |ls|, |rs|, c);
    }
    SourceWithin(s, node, ls, rs, a, b, pick, c);
    WithinSmaller(s.space, CellMisses(s, node, aside, g, r, c), source, g.failure);
  }

  ghost function SourceCell(s: Setting, node: Node, ls: seq<Guarantee>, rs: seq<Guarantee>, a: set<nat>, b: set<nat>,
                            pick: Pick,
                            c: nat): set<nat>
    requires node.Join? && c < |ls| + |rs|
  {
    if c < |ls| then
      if pick.left.Some? && pick.left.value < |TrueRows(s, node.left)|
      then CellMisses(s, node.left, a, ls[c], pick.left.value, c) else {}
    else
      if pick.right.Some? && pick.right.value < |TrueRows(s, node.right)|
      then CellMisses(s, node.right, b, rs[c - |ls|], pick.right.value, c - |ls|) else {}
  }

  lemma SourceWithin(s: Setting, node: Node, ls: seq<Guarantee>, rs: seq<Guarantee>, a: set<nat>, b: set<nat>,
                     pick: Pick, c: nat)
    requires node.Join? && c < |ls| + |rs|
    requires RowsHold(s, node.left, ls, a) && RowsHold(s, node.right, rs, b)
    ensures Within(s.space, SourceCell(s, node, ls, rs, a, b, pick, c), (ls + rs)[c].failure)
  {
    hide Within, Weight, CellMisses, TrueRows;
    NothingWeighs(s.space);
    ExactWithin(s.space, {}, (ls + rs)[c]);
  }

  lemma SourceMissed(g: Guarantee, kind: JoinKind, pick: Pick, L: seq<Row>, R: seq<Row>, L': seq<Row>, R': seq<Row>,
                     lw: nat, rw: nat, c: nat)
    requires KeepsBothSides(kind) && SameShape(L, L', lw) && SameShape(R, R', rw) && c < lw + rw
    requires !Accurate(g, JoinedRow(kind, pick, L, R, lw, rw)[c], JoinedRow(kind, pick, L', R', lw, rw)[c])
    ensures if c < lw then pick.left.Some? && pick.left.value < |L| && CellOff(g, L, L', pick.left.value, c)
            else pick.right.Some? && pick.right.value < |R| && CellOff(g, R, R', pick.right.value, c - lw)
  {
    hide Accurate;
    SameAccurate(g, Undefined);
  }

  /** A join whose predicate is exact over its inputs' columns keeps every column's guarantee, rows and order included. */
  lemma JoinHolds(s: Setting, node: Node, ls: seq<Guarantee>, rs: seq<Guarantee>, relation: nat -> RelationGuarantee,
                  a: set<nat>, b: set<nat>)
    returns (aside: set<nat>)
    requires SettingRelationsHold(s, relation)
    requires node.Join? && KeepsBothSides(node.kind) && |ls| == Width(node.left) && |rs| == Width(node.right)
    requires RowsHold(s, node.left, ls, a) && RowsHold(s, node.right, rs, b)
    requires PredicateExact(node.condition, RowInputs(ls + rs, relation))
    ensures RowsHold(s, node, ls + rs, aside)
  {
    hide IsSpace, Weight, Within, TrueRows, EstimatedRows, MatchedPairs, PredicateExact, SettingRelationsHold, ShapeHolds,
      CellMisses, Width;
    SpaceOf(s, relation);
    aside := SameMatches(s, node.condition, node.left, node.right, ls, rs, relation, a, b);
    forall w | w in s.space.outcomes && w !in aside ensures SamePairs(s, node, w) {}
    JoinedShape(s, node, ls, rs, a, b, aside);
    forall r: nat, c: nat | r < |TrueRows(s, node)| && c < |ls + rs|
      ensures Within(s.space, CellMisses(s, node, aside, (ls + rs)[c], r, c), (ls + rs)[c].failure)
    {
      JoinedCell(s, node, ls, rs, a, b, aside, r, c);
    }
  }

  /** A relation's own guarantee, stated of every column, holds. */
  ghost predicate StoredHolds(s: Setting, node: Node) {
    node.guarantee.Some? ==> exists aside :: RowsHold(s, node, Repeated(node.guarantee.value, Width(node)), aside)
  }

  /** The stored guarantees the columns' are read from hold, and every join below decides by exact values. */
  ghost predicate Grounded(s: Setting, node: Node, relation: nat -> RelationGuarantee) {
    if IsExactOption(node.guarantee) then StoredHolds(s, node)
    else match node
         case Join(_, condition, left, right, _) =>
           && StoredHolds(s, left) && StoredHolds(s, right)
           && (JoinInputGuarantees(left, right).Some? ==>
                 PredicateExact(condition, RowInputs(JoinInputGuarantees(left, right).value, relation)))
         case Project(_, child, _) => Grounded(s, child, relation)
         case Table(_, _, _) => true
  }

  /** The guarantees given to columns hold of them. */
  lemma {:induction false} ColumnsSound(s: Setting, node: Node,
                                        relation: nat -> RelationGuarantee) returns (aside: set<nat>)
    requires SettingRelationsHold(s, relation) && Grounded(s, node, relation) && ColumnGuarantees(node).Some?
    ensures RowsHold(s, node, ColumnGuarantees(node).value, aside)
    decreases node
  {
    hide RowsHold, SettingRelationsHold, PredicateExact;
    if IsExactOption(node.guarantee) {
      aside :| RowsHold(s, node, Repeated(node.guarantee.value, Width(node)), aside);
    } else {
      match node {
        case Join(_, _, left, right, _) =>
          var ls, rs := Repeated(left.guarantee.value, Width(left)), Repeated(right.guarantee.value, Width(right));
          var a :| RowsHold(s, left, ls, a);
          var b :| RowsHold(s, right, rs, b);
          aside := JoinHolds(s, node, ls, rs, relation, a, b);
        case Project(items, child, _) =>
          aside := ColumnsSound(s, child, relation);
          ProjectedColumns(s, node, ColumnGuarantees(child).value, aside, relation);
      }
    }
  }

  /** A projection's rows are its child's, item by item. */
  lemma ProjectedRows(s: Setting, node: Node, width: nat, aside: set<nat>)
    requires node.Project? && ShapeHolds(s, node.child, width, aside)
    ensures ShapeHolds(s, node, |node.items|, aside)
    ensures |TrueRows(s, node)| == |TrueRows(s, node.child)|
    ensures forall w :: w in s.space.outcomes && w !in aside ==> |EstimatedRows(s, node, w)| == |TrueRows(s, node.child)|
  {
    hide Weight, EvalAll, Eval;
    forall w | w in s.space.outcomes && w !in aside
      ensures SameShape(TrueRows(s, node), EstimatedRows(s, node, w), |node.items|)
    {
      assert SameShape(TrueRows(s, node.child), EstimatedRows(s, node.child, w), width);
    }
  }

  lemma ProjectedCell(node: Node, rows: seq<Row>, tables: nat -> seq<Row>, relation: nat -> Value, sem: Semantics,
                      r: nat, c: nat)
    requires node.Project? && rows == RowsOf(node.child, tables, relation, sem) && r < |rows| && c < |node.items|
    ensures r < |RowsOf(node, tables, relation, sem)| && c < |RowsOf(node, tables, relation, sem)[r]|
    ensures RowsOf(node, tables, relation, sem)[r][c] == Eval(node.items[c], RowEnv(rows[r], relation), sem)
  {
  }

  lemma ProjectedColumns(s: Setting, node: Node, columns: seq<Guarantee>, aside: set<nat>,
                         relation: nat -> RelationGuarantee)
    requires SettingRelationsHold(s, relation)
    requires node.Project? && RowsHold(s, node.child, columns, aside) && PickedColumns(node.items, columns).Some?
    ensures RowsHold(s, node, PickedColumns(node.items, columns).value, aside)
  {
    hide Weight, Within, IsSpace, ShapeHolds, SettingRelationsHold, TrueRows, EstimatedRows, Accurate, PickedColumns;
    SpaceOf(s, relation);
    ProjectedRows(s, node, |columns|, aside);
    var picked := PickedColumns(node.items, columns).value;
    forall r: nat, c: nat | r < |TrueRows(s, node)| && c < |picked|
      ensures Within(s.space, CellMisses(s, node, aside, picked[c], r, c), picked[c].failure)
    {
      var id := node.items[c].id;
      forall w | w in CellMisses(s, node, aside, picked[c], r, c) ensures w in CellMisses(s, node.child, aside, columns[id], r, id) {
        PickedCell(s, node, |columns|, aside, r, c, w);
      }
      WithinSmaller(s.space, CellMisses(s, node, aside, picked[c], r, c), CellMisses(s, node.child, aside, columns[id], r, id),
                    picked[c].failure);
    }
  }

  /** A projected column's cell is the child's. */
  lemma PickedCell(s: Setting, node: Node, width: nat, aside: set<nat>, r: nat, c: nat, w: nat)
    requires node.Project? && ShapeHolds(s, node.child, width, aside) && w in s.space.outcomes && w !in aside
    requires r < |TrueRows(s, node.child)| && c < |node.items| && node.items[c].Column? && node.items[c].id < width
    ensures var id := node.items[c].id;
      && r < |TrueRows(s, node)| && c < |TrueRows(s, node)[r]|
      && id < |TrueRows(s, node.child)[r]| && TrueRows(s, node)[r][c] == TrueRows(s, node.child)[r][id]
      && r < |EstimatedRows(s, node.child, w)| && id < |EstimatedRows(s, node.child, w)[r]|
      && r < |EstimatedRows(s, node, w)| && c < |EstimatedRows(s, node, w)[r]|
      && EstimatedRows(s, node, w)[r][c] == EstimatedRows(s, node.child, w)[r][id]
  {
    hide Weight;
    assert SameShape(TrueRows(s, node.child), EstimatedRows(s, node.child, w), width);
    ProjectedCell(node, TrueRows(s, node.child), s.tables, s.relation, s.sem, r, c);
    ProjectedCell(node, EstimatedRows(s, node.child, w), s.estimatedTables(w), s.estimatedRelation(w), s.sem, r, c);
  }

  /** One guarantee for all columns, each of which is exact or has it. */
  lemma OneForAll(s: Setting, node: Node, columns: seq<Guarantee>, g: Guarantee, aside: set<nat>)
    requires IsSpace(s.space) && RowsHold(s, node, columns, aside)
    requires forall c :: 0 <= c < |columns| ==> columns[c].IsExact() || columns[c] == g
    ensures RowsHold(s, node, Repeated(g, |columns|), aside)
  {
    hide Weight, Within, IsSpace, ShapeHolds, TrueRows, EstimatedRows, Accurate, IsZero, NeverFails;
    forall r: nat, c: nat | r < |TrueRows(s, node)| && c < |columns|
      ensures Within(s.space, CellMisses(s, node, aside, g, r, c), g.failure)
    {
      if columns[c] != g {
        var missed := CellMisses(s, node, aside, columns[c], r, c);
        ExactWeighsNothing(s.space, missed, columns[c]);
        ExactWithin(s.space, missed, g);
        forall w | w in CellMisses(s, node, aside, g, r, c) ensures w in missed {
          ExactCovers(columns[c], g, TrueRows(s, node)[r][c], EstimatedRows(s, node, w)[r][c]);
        }
        WithinSmaller(s.space, CellMisses(s, node, aside, g, r, c), missed, g.failure);
      }
    }
  }

  lemma ExactCovers(exact: Guarantee, g: Guarantee, t: Value, e: Value)
    requires exact.IsExact() && !Accurate(g, t, e)
    ensures !Accurate(exact, t, e)
  {
    if Accurate(exact, t, e) {
      ExactIsEqual(exact, t, e);
      SameAccurate(g, t);
    }
  }

  /** The guarantee given to a join holds of every cell of its rows. */
  lemma JoinGuaranteeSound(s: Setting, node: Node, relation: nat -> RelationGuarantee,
                           g: Guarantee) returns (aside: set<nat>)
    requires SettingRelationsHold(s, relation) && node.Join?
    requires StoredHolds(s, node.left) && StoredHolds(s, node.right)
    requires JoinGuarantee(node.kind, node.condition, node.left, node.right, relation) == Some(g)
    requires Admissible(node.condition, RowInputs(JoinInputGuarantees(node.left, node.right).value, relation))
    ensures RowsHold(s, node, Repeated(g, Width(node)), aside)
  {
    hide RowsHold, SettingRelationsHold, ScalarGuarantee, Admissible, IsZero, NeverFails, IsSpace;
    var left, right := node.left, node.right;
    var ls, rs := Repeated(left.guarantee.value, Width(left)), Repeated(right.guarantee.value, Width(right));
    var a :| RowsHold(s, left, ls, a);
    var b :| RowsHold(s, right, rs, b);
    aside := JoinHolds(s, node, ls, rs, relation, a, b);
    SpaceOf(s, relation);
    OneForAll(s, node, ls + rs, g, aside);
  }

  ghost predicate ItemsAdmissible(items: seq<Expr>, inputs: Inputs) {
    forall i :: 0 <= i < |items| ==> Admissible(items[i], inputs)
  }

  /** The guarantee given to a computed projection over a join holds of every cell of its rows. */
  lemma ProjectGuaranteeSound(s: Setting, node: Node, relation: nat -> RelationGuarantee,
                              g: Guarantee) returns (aside: set<nat>)
    requires SettingRelationsHold(s, relation) && node.Project? && Grounded(s, node.child, relation)
    requires RelationalProjectGuarantee(node.items, node.child, relation) == Some(g)
    requires ItemsAdmissible(node.items, RowInputs(ColumnGuarantees(node.child).value, relation))
    ensures RowsHold(s, node, Repeated(g, |node.items|), aside)
  {
    aside := ColumnsSound(s, node.child, relation);
    var columns := ColumnGuarantees(node.child).value;
    SpaceOf(s, relation);
    ShapeOf(s, node.child, columns, aside);
    ProjectedRows(s, node, |columns|, aside);
    hide Weight, Within, IsSpace, ShapeHolds, SettingRelationsHold, TrueRows, EstimatedRows, Grounded, ColumnGuarantees,
         ScalarGuarantee, RowsHold, Weakest, ItemsAdmissible;
    var gs := ItemGuarantees(node.items, RowInputs(columns, relation)).value;
    forall r: nat, c: nat | r < |TrueRows(s, node)| && c < |node.items|
      ensures Within(s.space, CellMisses(s, node, aside, g, r, c), g.failure)
    {
      ItemCell(s, node, columns, relation, aside, gs, g, r, c);
    }
    CellsTogether(s, node, g, |node.items|, aside);
  }

  lemma ShapeOf(s: Setting, node: Node, columns: seq<Guarantee>, aside: set<nat>)
    requires RowsHold(s, node, columns, aside)
    ensures ShapeHolds(s, node, |columns|, aside)
  {
  }

  lemma CellsTogether(s: Setting, node: Node, g: Guarantee, width: nat, aside: set<nat>)
    requires ShapeHolds(s, node, width, aside)
    requires forall r: nat, c: nat :: r < |TrueRows(s, node)| && c < width ==>
      Within(s.space, CellMisses(s, node, aside, g, r, c), g.failure)
    ensures RowsHold(s, node, Repeated(g, width), aside)
  {
    hide ShapeHolds, Within, CellMisses, TrueRows;
  }

  /** One item of one row: the scalar algebra over the row's columns. */
  lemma ItemCell(s: Setting, node: Node, columns: seq<Guarantee>, relation: nat -> RelationGuarantee, aside: set<nat>,
                 gs: seq<Guarantee>, g: Guarantee, r: nat, c: nat)
    requires SettingRelationsHold(s, relation) && node.Project? && RowsHold(s, node.child, columns, aside)
    requires ItemGuarantees(node.items, RowInputs(columns, relation)) == Some(gs) && Weakest(gs) == Some(g)
    requires ItemsAdmissible(node.items, RowInputs(columns, relation))
    requires r < |TrueRows(s, node.child)| && c < |node.items|
    ensures Within(s.space, CellMisses(s, node, aside, g, r, c), g.failure)
  {
    ShapeOf(s, node.child, columns, aside);
    var row := TrueRows(s, node.child)[r];
    var estimate := (w: nat) => if r < |EstimatedRows(s, node.child, w)| then EstimatedRows(s, node.child, w)[r] else [];
    ChildRowIsWorld(s, node.child, columns, relation, aside, r);
    var world, inputs := RowWorld(s, row, estimate), RowInputs(columns, relation);
    var e := node.items[c];
    assert Admissible(e, inputs);
    SpaceOf(s, relation);
    hide Weight, Within, IsSpace, SettingRelationsHold, ScalarGuarantee, Weakest, Admissible, IsWorld, Accurate, RowsHold;
    Sound(world, inputs, e);
    var missed := Misses(world, gs[c], e);
    WeakestWithin(s.space, gs, g, c, missed);
    NullAdded(s.space, missed, aside, g.failure);
    forall w | w in CellMisses(s, node, aside, g, r, c) ensures w in missed + aside {
      ItemValue(s, node, columns, aside, r, c, w);
      if w !in missed { WeakestAccurate(gs, g, c, Truth(world, e), Estimate(world, e, w)); }
    }
    WithinSmaller(s.space, CellMisses(s, node, aside, g, r, c), missed + aside, g.failure);
  }

  lemma ChildRowIsWorld(s: Setting, child: Node, columns: seq<Guarantee>, relation: nat -> RelationGuarantee,
                        aside: set<nat>, r: nat)
    requires SettingRelationsHold(s, relation) && RowsHold(s, child, columns, aside) && r < |TrueRows(s, child)|
    ensures var estimate := (w: nat) => if r < |EstimatedRows(s, child, w)| then EstimatedRows(s, child, w)[r] else [];
      IsWorld(RowWorld(s, TrueRows(s, child)[r], estimate), RowInputs(columns, relation))
  {
    hide Weight, Within, IsSpace, SettingRelationsHold, TrueRows, EstimatedRows, IsWorld, Accurate;
    SpaceOf(s, relation);
    var row := TrueRows(s, child)[r];
    var estimate := (w: nat) => if r < |EstimatedRows(s, child, w)| then EstimatedRows(s, child, w)[r] else [];
    forall w | w in s.space.outcomes && w !in aside ensures |estimate(w)| == |columns| {
      assert SameShape(TrueRows(s, child), EstimatedRows(s, child, w), |columns|);
    }
    forall c: nat | c < |columns|
      ensures Within(s.space, RowMisses(s, row, estimate, aside, columns[c], c), columns[c].failure)
    {
      var cell := CellMisses(s, child, aside, columns[c], r, c);
      forall w | w in RowMisses(s, row, estimate, aside, columns[c], c) ensures w in cell {
        assert SameShape(TrueRows(s, child), EstimatedRows(s, child, w), |columns|);
      }
      WithinSmaller(s.space, RowMisses(s, row, estimate, aside, columns[c], c), cell, columns[c].failure);
    }
    RowIsWorld(s, row, estimate, columns, relation, aside);
  }

  lemma ItemValue(s: Setting, node: Node, columns: seq<Guarantee>, aside: set<nat>, r: nat, c: nat, w: nat)
    requires node.Project? && RowsHold(s, node.child, columns, aside) && w in s.space.outcomes && w !in aside
    requires r < |TrueRows(s, node.child)| && c < |node.items|
    ensures var estimate := (w: nat) => if r < |EstimatedRows(s, node.child, w)| then EstimatedRows(s, node.child, w)[r] else [];
      var world := RowWorld(s, TrueRows(s, node.child)[r], estimate);
      && r < |TrueRows(s, node)| && c < |TrueRows(s, node)[r]|
      && r < |EstimatedRows(s, node, w)| && c < |EstimatedRows(s, node, w)[r]|
      && TrueRows(s, node)[r][c] == Truth(world, node.items[c])
      && EstimatedRows(s, node, w)[r][c] == Estimate(world, node.items[c], w)
  {
    hide Weight, Within, CellMisses;
    assert SameShape(TrueRows(s, node.child), EstimatedRows(s, node.child, w), |columns|);
    ProjectedCell(node, TrueRows(s, node.child), s.tables, s.relation, s.sem, r, c);
    ProjectedCell(node, EstimatedRows(s, node.child, w), s.estimatedTables(w), s.estimatedRelation(w), s.sem, r, c);
  }
}
