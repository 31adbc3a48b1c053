/**
 Where the guarantees given to a join's columns stop being sound. They are
 given whatever the join's predicate reads
 (crates/accuracy/src/propagation.rs:957-1035).
 */
module JoinLimits {
  import FiniteSums
  import opened Guarantees
  import opened JoinSoundness
  import opened LipschitzRules
  import opened Outcomes
  import opened RealBounds
  import opened Results
  import opened ScalarExprs
  import opened ScalarRules
  import opened ScalarSoundness

  /** Two tables with known guarantees joined by a predicate that is some function of their columns. */
  predicate ComparesTables(node: Node) {
    && node.Join? && KeepsBothSides(node.kind) && node.guarantee.None?
    && node.left.Table? && node.right.Table? && node.left.id != node.right.id
    && node.left.guarantee.Some? && node.right.guarantee.Some?
    && node.condition.Call? && node.condition.name.Named?
    && ReadsColumns(node.condition.args, node.left.width + node.right.width)
  }

  predicate ReadsColumns(args: seq<Expr>, width: nat) {
    forall k :: 0 <= k < |args| ==> args[k].Column? && args[k].id < width
  }

  /** Where the tables' guarantees hold, so do those given to the join's columns. */
  ghost predicate ColumnsHoldIn(s: Setting, node: Node, relation: nat -> RelationGuarantee)
    requires node.Join? && ColumnGuarantees(node).Some?
  {
    SettingRelationsHold(s, relation) && StoredHolds(s, node.left) && StoredHolds(s, node.right) ==>
      exists aside :: RowsHold(s, node, ColumnGuarantees(node).value, aside)
  }

  /** In every setting, whatever the predicate's function is. */
  ghost predicate ColumnsHoldAlways(node: Node, relation: nat -> RelationGuarantee)
    requires node.Join? && ColumnGuarantees(node).Some?
  {
    forall s: Setting :: ColumnsHoldIn(s, node, relation)
  }

  // ------------------------------------------------------- comparisons

  datatype Comparison = Less | AtMost | Greater | AtLeast | Equal | Different

  function NameOf(op: Comparison): string {
    match op
    case Less => "<"
    case AtMost => "<="
    case Greater => ">"
    case AtLeast => ">="
    case Equal => "="
    case Different => "!="
  }

  predicate Compares(op: Comparison, x: real, y: real) {
    match op
    case Less => x < y
    case AtMost => x <= y
    case Greater => x > y
    case AtLeast => x >= y
    case Equal => x == y
    case Different => x != y
  }

  /** The predicate's function is the comparison it is named for. */
  ghost predicate Interprets(sem: Semantics, op: Comparison) {
    forall x: real, y: real :: sem.matches(None, sem.call(NameOf(op), [Number(x), Number(y)])) <==> Compares(op, x, y)
  }

  /** In every setting with the comparison's own meaning. */
  ghost predicate ColumnsHoldUnder(op: Comparison, node: Node, relation: nat -> RelationGuarantee)
    requires node.Join? && ColumnGuarantees(node).Some?
  {
    forall s: Setting :: Interprets(s.sem, op) ==> ColumnsHoldIn(s, node, relation)
  }

  function Comparing(op: Comparison): Semantics {
    Semantics(
      (name: string, xs: seq<Value>) =>
        if |xs| == 2 && xs[0].Number? && xs[1].Number? && Compares(op, xs[0].value, xs[1].value) then Other(1) else Other(0),
      (other: ArithmeticOp, x: real, y: real) => Undefined,
      (tested: Option<Value>, v: Value) => v == Other(1),
      (id: nat) => Undefined)
  }

  /** Matches exactly when argument `k` is one. */
  function IsOne(k: nat): Semantics {
    Semantics(
      (name: string, xs: seq<Value>) => if k < |xs| && xs[k] == Number(1.0) then Other(1) else Other(0),
      (op: ArithmeticOp, x: real, y: real) => Undefined,
      (tested: Option<Value>, v: Value) => v == Other(1),
      (id: nat) => Undefined)
  }

  // --------------------------------------------- a setting that misses

  /** Three equal rows of `width` cells, the first of them column `from` of the join. */
  function Rows(from: nat, width: nat, cells: nat -> real): (rows: seq<Row>)
    ensures |rows| == 3 && AllWide(rows, width)
    ensures forall r, c :: 0 <= r < 3 && 0 <= c < width ==> rows[r][c] == Number(cells(from + c))
  {
    seq(3, _ => seq(width, c requires c >= 0 => Number(cells(from + c))))
  }

  function From(node: Node, id: nat): nat
    requires ComparesTables(node)
  {
    if id == node.left.id then 0 else node.left.width
  }

  function Tables(node: Node, cells: nat -> real): nat -> seq<Row>
    requires ComparesTables(node)
  {
    (id: nat) => Rows(From(node, id), if id == node.left.id then node.left.width else node.right.width, cells)
  }

  /** Column `off` holds `x`, every other column `v`. */
  function Cells(off: nat, x: real, v: real): nat -> real {
    (c: nat) => if c == off then x else v
  }

  /** Column `off` is one and every other column `v`; in outcome 0, of weight `d`, `off` is estimated as `e`. */
  ghost function Missing(node: Node, off: nat, e: real, v: real, d: real, sem: Semantics): Setting
    requires ComparesTables(node)
  {
    Setting(Space({0, 1}, (w: nat) => if w == 0 then d else 1.0 - d),
            Tables(node, Cells(off, 1.0, v)), (n: nat) => Undefined,
            (w: nat) => Tables(node, Cells(off, if w == 0 then e else 1.0, v)), (w: nat) => (n: nat) => Undefined, sem)
  }

  /** `g` allows an estimate of `e` for a true one, in outcomes of weight `d`. */
  ghost predicate Allows(g: Guarantee, e: real, d: real) {
    && 0.0 < d <= 1.0 && e > 1.0
    && (Accurate(g, Number(1.0), Number(e)) || (FailureBound(g.failure).Some? ==> d <= FailureBound(g.failure).value))
  }

  /** A guarantee that is not exact allows some wrong estimate. */
  lemma SomeMissAllowed(g: Guarantee) returns (e: real, d: real)
    requires !g.IsExact()
    ensures Allows(g, e, d)
  {
    if !IsZero(g.error) {
      var bound := BoundOf(g.error);
      if bound.Some? { KnownBound(g.error); ZeroIsZero(g.error); }
      e, d := if bound.Some? then 1.0 + bound.value else 2.0, 1.0;
      assert bound.Some? ==> bound.value > 0.0 && Distance(e, 1.0) == bound.value && Magnitude(1.0) == 1.0;
    } else {
      var claimed := Probability(g.failure);
      if claimed.Some? { NeverFailsIsZero(g.failure); }
      e, d := 2.0, if claimed.Some? then claimed.value else 1.0;
    }
  }

  lemma MissingSpace(space: Space, d: real)
    requires space == Space({0, 1}, (w: nat) => if w == 0 then d else 1.0 - d) && 0.0 < d <= 1.0
    ensures IsSpace(space) && Weight(space, {0}) == d
    ensures forall event :: 0 in event ==> Weight(space, event) > 0.0
  {
    var both: set<nat>, zero: set<nat>, one: set<nat> := {0, 1}, {0}, {1};
    assert both - zero == one && one - one == {} && zero - zero == {} && zero * both == zero;
    FiniteSums.SumSplit(both, 0, space.weight);
    FiniteSums.SumSplit(one, 1, space.weight);
    FiniteSums.SumSplit(zero, 0, space.weight);
    forall event: set<nat> | 0 in event ensures Weight(space, event) > 0.0 {
      WeightMonotone(space, {0}, event);
    }
  }

  lemma RelationsOfMissing(node: Node, off: nat, e: real, v: real, d: real, sem: Semantics,
                           relation: nat -> RelationGuarantee)
    requires ComparesTables(node) && 0.0 < d <= 1.0
    ensures SettingRelationsHold(Missing(node, off, e, v, d, sem), relation)
  {
    var s := Missing(node, off, e, v, d, sem);
    MissingSpace(s.space, d);
    NothingWeighs(s.space);
    var estimate: nat -> Row := (w: nat) => [];
    var world, inputs := RowWorld(s, [], estimate), RowInputs([], relation);
    forall n: nat, g: Guarantee ensures Holds(world, g, Relation(n)) {
      forall w: nat ensures Accurate(g, Truth(world, Relation(n)), Estimate(world, Relation(n), w)) {
        RelationValue(s, [], estimate, n, w);
        SameAccurate(g, Undefined);
      }
      assert Misses(world, g, Relation(n)) == {};
      ExactWithin(s.space, {}, g);
    }
    assert RowWorld(s, [], estimate).space == s.space;
  }

  lemma RowsOfTable(node: Node, side: Node, off: nat, e: real, v: real, d: real, sem: Semantics, w: nat)
    requires ComparesTables(node) && (side == node.left || side == node.right)
    ensures var s := Missing(node, off, e, v, d, sem);
      && TrueRows(s, side) == Rows(From(node, side.id), side.width, Cells(off, 1.0, v))
      && EstimatedRows(s, side, w) == Rows(From(node, side.id), side.width, Cells(off, if w == 0 then e else 1.0, v))
  {
    hide Rows, Cells;
    assert Missing(node, off, e, v, d, sem).estimatedTables(w) == Tables(node, Cells(off, if w == 0 then e else 1.0, v));
  }

  lemma ShapeOfTable(node: Node, side: Node, off: nat, e: real, v: real, d: real, sem: Semantics)
    requires ComparesTables(node) && (side == node.left || side == node.right)
    ensures ShapeHolds(Missing(node, off, e, v, d, sem), side, side.width, {})
  {
    var s := Missing(node, off, e, v, d, sem);
    NothingWeighs(s.space);
    hide Weight, TrueRows, EstimatedRows, Rows, Cells, Missing;
    RowsOfTable(node, side, off, e, v, d, sem, 0);
    forall w: nat ensures SameShape(TrueRows(s, side), EstimatedRows(s, side, w), side.width) {
      RowsOfTable(node, side, off, e, v, d, sem, w);
    }
  }

  /** Only column `off` misses, and only in outcome 0. */
  lemma MissOfTable(node: Node, side: Node, off: nat, e: real, v: real, d: real, sem: Semantics, r: nat, c: nat)
    requires ComparesTables(node) && (side == node.left || side == node.right) && r < 3 && c < side.width
    ensures var missed := CellMisses(Missing(node, off, e, v, d, sem), side, {}, side.guarantee.value, r, c);
      && missed <= {0}
      && (From(node, side.id) + c != off || Accurate(side.guarantee.value, Number(1.0), Number(e)) ==> missed == {})
  {
    hide Accurate, TrueRows, EstimatedRows, Missing;
    var s, g := Missing(node, off, e, v, d, sem), side.guarantee.value;
    SameAccurate(g, Number(1.0));
    SameAccurate(g, Number(v));
    RowsOfTable(node, side, off, e, v, d, sem, 0);
    forall w: nat
      ensures EstimatedRows(s, side, w) == Rows(From(node, side.id), side.width, Cells(off, if w == 0 then e else 1.0, v))
    {
      RowsOfTable(node, side, off, e, v, d, sem, w);
    }
  }

  /** Column `off` belongs to `side`. */
  predicate OfSide(node: Node, side: Node, off: nat)
    requires ComparesTables(node) && (side == node.left || side == node.right)
  {
    From(node, side.id) <= off < From(node, side.id) + side.width
  }

  /** A table's guarantee holds when it allows the miss, or the miss is elsewhere. */
  lemma TableOfMissing(node: Node, side: Node, off: nat, e: real, v: real, d: real, sem: Semantics)
    requires ComparesTables(node) && (side == node.left || side == node.right) && 0.0 < d <= 1.0
    requires OfSide(node, side, off) ==> Allows(side.guarantee.value, e, d)
    ensures StoredHolds(Missing(node, off, e, v, d, sem), side)
  {
    var s, g, width := Missing(node, off, e, v, d, sem), side.guarantee.value, side.width;
    MissingSpace(s.space, d);
    NothingWeighs(s.space);
    RowsOfTable(node, side, off, e, v, d, sem, 0);
    ShapeOfTable(node, side, off, e, v, d, sem);
    hide Accurate, Weight, TrueRows, EstimatedRows, Missing, CellMisses, IsSpace, ShapeHolds, RowsHold, FailureBound;
    forall r: nat, c: nat | r < 3 && c < width ensures Within(s.space, CellMisses(s, side, {}, g, r, c), g.failure) {
      MissOfTable(node, side, off, e, v, d, sem, r, c);
      if From(node, side.id) + c == off && !Accurate(g, Number(1.0), Number(e)) {
        WeightMonotone(s.space, CellMisses(s, side, {}, g, r, c), {0});
      } else {
        ExactWithin(s.space, {}, g);
      }
    }
    CellsTogether(s, side, g, width, {});
    assert RowsHold(s, side, Repeated(g, Width(side)), {});
  }

  // ------------------------------------------------- its rows are lost

  lemma {:induction false} EveryMatch(i: nat, m: nat, n: nat, count: nat)
    requires i < m && count <= n
    ensures |MatchesOf(i, count, AllPairs(m, n))| == count
  {
    if count > 0 { EveryMatch(i, m, n, count - 1); }
  }

  lemma {:induction false} EveryLeft(kind: JoinKind, m: nat, n: nat, count: nat)
    requires KeepsBothSides(kind) && count <= m && n > 0
    ensures |LeftPicks(kind, count, n, AllPairs(m, n))| == count * n
  {
    if count > 0 {
      EveryLeft(kind, m, n, count - 1);
      EveryMatch(count - 1, m, n, n);
    }
  }

  lemma {:induction false} NoRightLeft(m: nat, n: nat, count: nat)
    requires m > 0 && count <= n
    ensures UnmatchedRight(m, count, AllPairs(m, n)) == []
  {
    if count > 0 {
      NoRightLeft(m, n, count - 1);
      assert (0, count - 1) in AllPairs(m, n);
    }
  }

  lemma {:induction false} NoMatches(i: nat, n: nat)
    ensures MatchesOf(i, n, {}) == []
  {
    if n > 0 { NoMatches(i, n - 1); }
  }

  lemma {:induction false} NoLefts(kind: JoinKind, m: nat, n: nat)
    requires KeepsBothSides(kind)
    ensures |LeftPicks(kind, m, n, {})| <= m
  {
    if m > 0 {
      NoLefts(kind, m - 1, n);
      NoMatches(m - 1, n);
    }
  }

  lemma {:induction false} AllRights(m: nat, n: nat)
    ensures |UnmatchedRight(m, n, {})| <= n
  {
    if n > 0 { AllRights(m, n - 1); }
  }

  /** Matching every pair of three rows and three gives nine rows, matching none at most six. */
  lemma NineOrSix(kind: JoinKind)
    requires KeepsBothSides(kind)
    ensures |Picks(kind, 3, 3, AllPairs(3, 3))| == 9
    ensures |Picks(kind, 3, 3, {})| <= 6
  {
    EveryLeft(kind, 3, 3, 3);
    NoRightLeft(3, 3, 3);
    NoLefts(kind, 3, 3);
    AllRights(3, 3);
  }

  /** The arguments of the predicate, column by column. */
  function Arguments(args: seq<Expr>, cells: nat -> real): seq<Value>
    requires forall k :: 0 <= k < |args| ==> args[k].Column?
  {
    seq(|args|, k requires 0 <= k < |args| => Number(cells(args[k].id)))
  }

  ghost predicate Matches(node: Node, cells: nat -> real, sem: Semantics)
    requires ComparesTables(node)
  {
    sem.matches(None, sem.call(node.condition.name.name, Arguments(node.condition.args, cells)))
  }

  lemma PredicateOf(node: Node, row: Row, relation: nat -> Value, cells: nat -> real, sem: Semantics)
    requires ComparesTables(node) && |row| == node.left.width + node.right.width
    requires forall c :: 0 <= c < |row| ==> row[c] == Number(cells(c))
    ensures sem.matches(None, Eval(node.condition, RowEnv(row, relation), sem)) <==> Matches(node, cells, sem)
  {
    var args := node.condition.args;
    assert EvalAll(args, RowEnv(row, relation), sem) == Arguments(args, cells);
  }

  /** All rows of a side being equal, every pair matches or none does. */
  lemma MatchesOfRows(node: Node, relation: nat -> Value, cells: nat -> real, sem: Semantics)
    requires ComparesTables(node)
    ensures MatchedPairs(node.condition, Rows(0, node.left.width, cells), Rows(node.left.width, node.right.width, cells),
                         relation, sem)
         == if Matches(node, cells, sem) then AllPairs(3, 3) else {}
  {
    hide Eval, Matches;
    var l, r := Rows(0, node.left.width, cells), Rows(node.left.width, node.right.width, cells);
    forall i: nat, j: nat | i < 3 && j < 3
      ensures sem.matches(None, Eval(node.condition, RowEnv(l[i] + r[j], relation), sem)) <==> Matches(node, cells, sem)
    {
      PredicateOf(node, l[i] + r[j], relation, cells, sem);
    }
  }

  lemma RowCount(node: Node, tables: nat -> seq<Row>, relation: nat -> Value, cells: nat -> real, sem: Semantics)
    requires ComparesTables(node)
    requires tables(node.left.id) == Rows(0, node.left.width, cells)
    requires tables(node.right.id) == Rows(node.left.width, node.right.width, cells)
    ensures |RowsOf(node, tables, relation, sem)| == 9 <==> Matches(node, cells, sem)
  {
    NineOrSix(node.kind);
    MatchesOfRows(node, relation, cells, sem);
    hide Picks, MatchedPairs, Matches, Rows;
    var l, r := Rows(0, node.left.width, cells), Rows(node.left.width, node.right.width, cells);
    JoinedWide(node, l, r, node.left.width, node.right.width, tables, relation, sem);
  }

  /** Rows lost in an outcome of some weight cannot be set aside. */
  lemma LostRows(s: Setting, node: Node, columns: seq<Guarantee>, aside: set<nat>)
    requires 0 in s.space.outcomes && |TrueRows(s, node)| != |EstimatedRows(s, node, 0)|
    requires 0 in aside ==> Weight(s.space, aside) > 0.0
    ensures !RowsHold(s, node, columns, aside)
  {
    hide Weight, TrueRows, EstimatedRows, Within, CellMisses;
  }

  /** Where the wrong estimate of one column decides the predicate, the setting loses or gains rows. */
  lemma EstimateDecides(node: Node, relation: nat -> RelationGuarantee, off: nat, e: real, v: real, d: real, sem: Semantics)
    requires ComparesTables(node) && ColumnGuarantees(node).Some? && off < node.left.width + node.right.width
    requires Allows(ColumnGuarantees(node).value[off], e, d)
    requires Matches(node, Cells(off, 1.0, v), sem) != Matches(node, Cells(off, e, v), sem)
    ensures !ColumnsHoldIn(Missing(node, off, e, v, d, sem), node, relation)
  {
    var s, columns := Missing(node, off, e, v, d, sem), ColumnGuarantees(node).value;
    MissingSpace(s.space, d);
    hide SettingRelationsHold, StoredHolds, RowsHold, Weight, TrueRows, EstimatedRows, Accurate, FailureBound, IsSpace,
      Matches, Rows, Cells;
    RelationsOfMissing(node, off, e, v, d, sem, relation);
    TableOfMissing(node, node.left, off, e, v, d, sem);
    TableOfMissing(node, node.right, off, e, v, d, sem);
    RowsOfMissing(node, off, e, v, d, sem);
    forall aside ensures !RowsHold(s, node, columns, aside) {
      LostRows(s, node, columns, aside);
    }
  }

  lemma RowsOfMissing(node: Node, off: nat, e: real, v: real, d: real, sem: Semantics)
    requires ComparesTables(node)
    ensures var s := Missing(node, off, e, v, d, sem);
      && (|TrueRows(s, node)| == 9 <==> Matches(node, Cells(off, 1.0, v), sem))
      && (|EstimatedRows(s, node, 0)| == 9 <==> Matches(node, Cells(off, e, v), sem))
  {
    hide Matches, Rows, Cells, RowsOf;
    var s := Missing(node, off, e, v, d, sem);
    RowCount(node, s.tables, s.relation, Cells(off, 1.0, v), sem);
    assert s.estimatedTables(0) == Tables(node, Cells(off, e, v));
    RowCount(node, s.estimatedTables(0), s.estimatedRelation(0), Cells(off, e, v), sem);
  }

  // ------------------------------------------------------ the exact limit

  lemma {:induction false} ColumnsRead(args: seq<Expr>, width: nat)
    requires ReadsColumns(args, width)
    ensures RelationsOf(args) == {}
    ensures forall c :: c in ColumnsOf(args) <==> exists k :: 0 <= k < |args| && args[k].id == c
  {
    if args != [] {
      ColumnsRead(args[1..], width);
      forall c ensures c in ColumnsOf(args) <==> exists k :: 0 <= k < |args| && args[k].id == c {
        if c in ColumnsOf(args[1..]) {
          var k :| 0 <= k < |args[1..]| && args[1..][k].id == c;
          assert args[k + 1].id == c;
        }
        if k :| 0 <= k < |args| && args[k].id == c && k > 0 { assert args[1..][k - 1].id == c; }
      }
    }
  }

  /** The first argument that is not exact, or none and the predicate is exact. */
  lemma InexactArgument(node: Node, columns: seq<Guarantee>, relation: nat -> RelationGuarantee) returns (k: nat)
    requires ComparesTables(node) && |columns| == node.left.width + node.right.width
    ensures k <= |node.condition.args|
    ensures k < |node.condition.args| ==> !columns[node.condition.args[k].id].IsExact()
    ensures k == |node.condition.args| <==> IsExactOption(ScalarGuarantee(node.condition, RowInputs(columns, relation)))
    ensures k == |node.condition.args| ==> PredicateExact(node.condition, RowInputs(columns, relation))
  {
    var args, inputs := node.condition.args, RowInputs(columns, relation);
    ColumnsRead(args, node.left.width + node.right.width);
    assert Columns(node.condition) == ColumnsOf(args) && Relations(node.condition) == {};
    hide Guarantee.IsExact, ColumnsOf, Columns;
    if LeavesExact(node.condition, inputs) {
      k := |args|;
    } else {
      var c :| c in Columns(node.condition) && !IsExactOption(inputs.column(c));
      assert exists j :: 0 <= j < |args| && args[j].id == c;
      k :| 0 <= k < |args| && args[k].id == c;
    }
  }

  /**
   The columns of a join keep the guarantees they are given, in every setting in
   which the tables keep theirs, exactly when the predicate is exact: the test
   the join's own guarantee makes and its columns' do not.
   */
  lemma ColumnsHoldIffPredicateExact(node: Node, relation: nat -> RelationGuarantee)
    requires ComparesTables(node) && ColumnGuarantees(node).Some?
    ensures ColumnsHoldAlways(node, relation)
       <==> IsExactOption(ScalarGuarantee(node.condition, RowInputs(ColumnGuarantees(node).value, relation)))
  {
    var columns, args := ColumnGuarantees(node).value, node.condition.args;
    var k := InexactArgument(node, columns, relation);
    if k == |args| {
      ExactPredicateHolds(node, relation);
    } else {
      var off := args[k].id;
      var e, d := SomeMissAllowed(columns[off]);
      OnlyArgument(node, k, e);
      hide ColumnsHoldIn, Matches, Allows, Missing;
      EstimateDecides(node, relation, off, e, 1.0, d, IsOne(k));
    }
  }

  lemma ExactPredicateHolds(node: Node, relation: nat -> RelationGuarantee)
    requires ComparesTables(node) && ColumnGuarantees(node).Some?
    requires PredicateExact(node.condition, RowInputs(ColumnGuarantees(node).value, relation))
    ensures ColumnsHoldAlways(node, relation)
  {
    hide RowsHold, SettingRelationsHold, StoredHolds;
    forall s: Setting | SettingRelationsHold(s, relation) && StoredHolds(s, node.left) && StoredHolds(s, node.right)
      ensures exists aside :: RowsHold(s, node, ColumnGuarantees(node).value, aside)
    {
      var aside := ColumnsSound(s, node, relation);
    }
  }

  lemma OnlyArgument(node: Node, k: nat, e: real)
    requires ComparesTables(node) && k < |node.condition.args| && e > 1.0
    ensures Matches(node, Cells(node.condition.args[k].id, 1.0, 1.0), IsOne(k))
    ensures !Matches(node, Cells(node.condition.args[k].id, e, 1.0), IsOne(k))
  {
    assert Arguments(node.condition.args, Cells(node.condition.args[k].id, 1.0, 1.0))[k] == Number(1.0);
    assert Arguments(node.condition.args, Cells(node.condition.args[k].id, e, 1.0))[k] == Number(e);
  }

  /** `op` between two different columns. */
  predicate IsComparison(node: Node, op: Comparison) {
    && ComparesTables(node) && node.condition.name.name == NameOf(op)
    && |node.condition.args| == 2 && node.condition.args[0].id != node.condition.args[1].id
  }

  /** The same limit for each comparison with its own meaning: a join on it keeps its columns' guarantees exactly when both are exact. */
  lemma ComparisonHoldsIffExact(op: Comparison, node: Node, relation: nat -> RelationGuarantee)
    requires IsComparison(node, op) && ColumnGuarantees(node).Some?
    ensures ColumnsHoldUnder(op, node, relation)
       <==> forall k :: 0 <= k < 2 ==> ColumnGuarantees(node).value[node.condition.args[k].id].IsExact()
  {
    var columns, args := ColumnGuarantees(node).value, node.condition.args;
    var k := InexactArgument(node, columns, relation);
    if k == |args| {
      ColumnsExact(node, columns, relation);
      ExactPredicateHolds(node, relation);
    } else {
      var e, d := SomeMissAllowed(columns[args[k].id]);
      var v := Pivot(op, k, e);
      PivotDecides(op, node, k, e);
      MeansItself(op);
      hide ColumnsHoldIn, Matches, Allows, Missing, Comparing, Interprets;
      EstimateDecides(node, relation, args[k].id, e, v, d, Comparing(op));
      SemOf(node, args[k].id, e, v, d, op);
    }
  }

  lemma SemOf(node: Node, off: nat, e: real, v: real, d: real, op: Comparison)
    requires ComparesTables(node)
    ensures Missing(node, off, e, v, d, Comparing(op)).sem == Comparing(op)
  {
  }

  lemma ColumnsExact(node: Node, columns: seq<Guarantee>, relation: nat -> RelationGuarantee)
    requires ComparesTables(node) && |columns| == node.left.width + node.right.width
    requires IsExactOption(ScalarGuarantee(node.condition, RowInputs(columns, relation)))
    ensures forall k :: 0 <= k < |node.condition.args| ==> columns[node.condition.args[k].id].IsExact()
  {
    var args, inputs := node.condition.args, RowInputs(columns, relation);
    ColumnsRead(args, node.left.width + node.right.width);
    hide Guarantee.IsExact;
    forall k | 0 <= k < |args| ensures columns[args[k].id].IsExact() {
      assert args[k].id in Columns(node.condition);
      assert IsExactOption(inputs.column(args[k].id));
    }
  }

  lemma MeansItself(op: Comparison)
    ensures Interprets(Comparing(op), op)
  {
  }

  /** The other argument's value that makes `op` tell one from `e`. */
  function Pivot(op: Comparison, k: nat, e: real): real {
    match op
    case Less => if k == 0 then e else 1.0
    case AtMost => if k == 0 then 1.0 else e
    case Greater => if k == 0 then 1.0 else e
    case AtLeast => if k == 0 then e else 1.0
    case _ => 1.0
  }

  lemma PivotDecides(op: Comparison, node: Node, k: nat, e: real)
    requires IsComparison(node, op) && k < 2 && e > 1.0
    ensures var off, v := node.condition.args[k].id, Pivot(op, k, e);
      Matches(node, Cells(off, 1.0, v), Comparing(op)) != Matches(node, Cells(off, e, v), Comparing(op))
  {
    var off, v := node.condition.args[k].id, Pivot(op, k, e);
    MatchIsComparison(op, node, k, 1.0, v);
    MatchIsComparison(op, node, k, e, v);
    hide Matches, Cells, Comparing, ComparesTables;
  }

  lemma MatchIsComparison(op: Comparison, node: Node, k: nat, x: real, v: real)
    requires IsComparison(node, op) && k < 2
    ensures Matches(node, Cells(node.condition.args[k].id, x, v), Comparing(op))
         == if k == 0 then Compares(op, x, v) else Compares(op, v, x)
  {
    var args := node.condition.args;
    hide Compares;
    assert Arguments(args, Cells(args[k].id, x, v)) == if k == 0 then [Number(x), Number(v)] else [Number(v), Number(x)];
  }

  // --------------------------------------------------- a concrete join

  const UNIT_ERROR := Guarantee(Absolute, Constant(1.0), ZeroProbability, [])

  const EXACT_ROWS := ExactGuarantee("exact rows")

  const LESS := Call(Named("<"), [Column(0), Column(1)])

  const ESTIMATE_JOIN := Join(Inner, LESS, Table(0, 1, Some(UNIT_ERROR)), Table(1, 1, Some(EXACT_ROWS)), None)

  /**
   A join on `estimate < exact` has no guarantee, its columns have theirs, and
   they do not always hold: the true 1 is below 2, its estimate 2 is not.
   */
  lemma EstimatedPredicateChangesRows(relation: nat -> RelationGuarantee) returns (s: Setting)
    ensures JoinGuarantee(ESTIMATE_JOIN.kind, ESTIMATE_JOIN.condition, ESTIMATE_JOIN.left, ESTIMATE_JOIN.right, relation).None?
    ensures ColumnGuarantees(ESTIMATE_JOIN) == Some([UNIT_ERROR, EXACT_ROWS])
    ensures Interprets(s.sem, Less) && !ColumnsHoldIn(s, ESTIMATE_JOIN, relation)
    ensures |TrueRows(s, ESTIMATE_JOIN)| == 9 && |EstimatedRows(s, ESTIMATE_JOIN, 0)| != 9
  {
    InputColumns();
    NotExact(relation);
    var sem := Comparing(Less);
    s := Missing(ESTIMATE_JOIN, 0, 2.0, 2.0, 1.0, sem);
    MeansItself(Less);
    PivotDecides(Less, ESTIMATE_JOIN, 0, 2.0);
    assert Accurate(UNIT_ERROR, Number(1.0), Number(2.0));
    OneBelowTwo();
    SemOf(ESTIMATE_JOIN, 0, 2.0, 2.0, 1.0, Less);
    hide ColumnsHoldIn, ScalarGuarantee, Matches, Accurate, Comparing, Interprets, TrueRows, EstimatedRows, Missing;
    EstimateDecides(ESTIMATE_JOIN, relation, 0, 2.0, 2.0, 1.0, sem);
    RowsOfMissing(ESTIMATE_JOIN, 0, 2.0, 2.0, 1.0, sem);
  }

  lemma OneBelowTwo()
    ensures Matches(ESTIMATE_JOIN, Cells(0, 1.0, 2.0), Comparing(Less))
  {
    assert Arguments(ESTIMATE_JOIN.condition.args, Cells(0, 1.0, 2.0)) == [Number(1.0), Number(2.0)];
  }

  lemma InputColumns()
    ensures JoinInputGuarantees(ESTIMATE_JOIN.left, ESTIMATE_JOIN.right) == Some([UNIT_ERROR, EXACT_ROWS])
    ensures !UNIT_ERROR.IsExact()
  {
    assert Repeated(UNIT_ERROR, 1) == [UNIT_ERROR] && Repeated(EXACT_ROWS, 1) == [EXACT_ROWS];
    assert [UNIT_ERROR] + [EXACT_ROWS] == [UNIT_ERROR, EXACT_ROWS];
  }

  lemma NotExact(relation: nat -> RelationGuarantee)
    ensures ScalarGuarantee(LESS, RowInputs([UNIT_ERROR, EXACT_ROWS], relation)).None?
  {
    var inputs := RowInputs([UNIT_ERROR, EXACT_ROWS], relation);
    assert inputs.column(0) == Some(UNIT_ERROR);
    var args := [Column(0), Column(1)];
    assert 0 in Columns(Column(0));
    assert ColumnsOf(args) == Columns(args[0]) + ColumnsOf(args[1..]);
    assert 0 in Columns(LESS);
    assert !LeavesExact(LESS, inputs);
  }
}
