/**
 MIN and MAX over groups of at most one row of a filtered estimate
 (crates/accuracy/src/propagation.rs:304-350 and 1680-1727).
 */
module SelectedGroups {
  import opened Guarantees
  import LipschitzRules
  import opened Results
  import opened ScalarExprs
  import opened ScalarRules
  import ScalarSoundness

  type Row = seq<Value>

  /** A filter condition; any other expression is opaque. */
  datatype Condition =
    | And(items: seq<Condition>)
    | Equals(left: Expr, right: Expr)
    | InList(expr: Expr, list: seq<Expr>, negated: bool)
    | Opaque(expr: Expr)

  // --------------------------------------------------------- meaning

  function EnvOf(row: Row): Env {
    Env((c: nat) => if c < |row| then row[c] else Undefined, (n: nat) => Undefined)
  }

  function ValueIn(e: Expr, row: Row, sem: Semantics): Value {
    Eval(e, EnvOf(row), sem)
  }

  /** SQL equality: never true of a missing value. */
  predicate Same(x: Value, y: Value) {
    x == y && x != Undefined
  }

  ghost predicate Meets(c: Condition, row: Row, sem: Semantics)
    decreases c, 1
  {
    match c
    case And(items) => AllMeet(items, row, sem)
    case Equals(left, right) => Same(ValueIn(left, row, sem), ValueIn(right, row, sem))
    case InList(e, list, negated) =>
      if negated then
        ValueIn(e, row, sem) != Undefined
        && forall i :: 0 <= i < |list| ==> ValueIn(list[i], row, sem) != Undefined && ValueIn(list[i], row, sem) != ValueIn(e, row, sem)
      else exists i :: 0 <= i < |list| && Same(ValueIn(e, row, sem), ValueIn(list[i], row, sem))
    case Opaque(e) => sem.matches(None, ValueIn(e, row, sem))
  }

  ghost predicate AllMeet(items: seq<Condition>, row: Row, sem: Semantics)
    decreases items, 0
  {
    items == [] || (Meets(items[0], row, sem) && AllMeet(items[1..], row, sem))
  }

  // -------------------------------------------------------- conjuncts

  /** The conjuncts in order, nested conjunctions flattened. */
  function Conjuncts(c: Condition): seq<Condition>
    decreases c, 1
  {
    if c.And? then ConjunctsOf(c.items) else [c]
  }

  function ConjunctsOf(items: seq<Condition>): seq<Condition>
    decreases items, 0
  {
    if items == [] then [] else Conjuncts(items[0]) + ConjunctsOf(items[1..])
  }

  /** The recursive walk that pushes every conjunct. */
  method SplitAnd(c: Condition, out: seq<Condition>) returns (r: seq<Condition>)
    ensures r == out + Conjuncts(c)
    decreases c, 1
  {
    if c.And? {
      r := SplitAll(c.items, out);
    } else {
      r := out + [c];
    }
  }

  method SplitAll(items: seq<Condition>, out: seq<Condition>) returns (r: seq<Condition>)
    ensures r == out + ConjunctsOf(items)
    decreases items, 0
  {
    r := out;
    if items != [] {
      r := SplitAnd(items[0], r);
      r := SplitAll(items[1..], r);
    }
  }

  ghost predicate AllHold(conjuncts: seq<Condition>, row: Row, sem: Semantics) {
    forall k :: 0 <= k < |conjuncts| ==> Meets(conjuncts[k], row, sem)
  }

  lemma AllHoldJoined(head: seq<Condition>, tail: seq<Condition>, row: Row, sem: Semantics)
    ensures AllHold(head + tail, row, sem) <==> AllHold(head, row, sem) && AllHold(tail, row, sem)
  {
    hide Meets;
    if AllHold(head + tail, row, sem) {
      assert forall k :: 0 <= k < |head| ==> (head + tail)[k] == head[k];
      assert forall k :: 0 <= k < |tail| ==> (head + tail)[|head| + k] == tail[k];
    }
  }

  /** A condition holds exactly when all its conjuncts do. */
  lemma {:induction false} ConjunctsDecide(c: Condition, row: Row, sem: Semantics)
    ensures Meets(c, row, sem) <==> AllHold(Conjuncts(c), row, sem)
    decreases c, 1
  {
    if c.And? {
      ConjunctsDecideAll(c.items, row, sem);
      hide AllHold, AllMeet;
    } else {
      OneHolds(c, row, sem);
      hide AllHold, Meets;
    }
  }

  lemma OneHolds(c: Condition, row: Row, sem: Semantics)
    ensures AllHold([c], row, sem) <==> Meets(c, row, sem)
  {
    hide Meets;
    assert [c][0] == c;
  }

  lemma {:induction false} ConjunctsDecideAll(items: seq<Condition>, row: Row, sem: Semantics)
    ensures AllMeet(items, row, sem) <==> AllHold(ConjunctsOf(items), row, sem)
    decreases items, 0
  {
    if items != [] {
      ConjunctsDecide(items[0], row, sem);
      ConjunctsDecideAll(items[1..], row, sem);
      AllHoldJoined(Conjuncts(items[0]), ConjunctsOf(items[1..]), row, sem);
      hide Meets, Conjuncts, AllHold;
    }
  }

  /** The column a conjunct pins to one literal: `c = v` or `c IN (v)`. */
  function PinnedColumn(c: Condition): Option<nat> {
    match c
    case Equals(left, right) =>
      if left.Column? && right.Literal? then Some(left.id)
      else if left.Literal? && right.Column? then Some(right.id)
      else None
    case InList(e, list, negated) =>
      if !negated && e.Column? && |list| == 1 && list[0].Literal? then Some(e.id) else None
    case _ => None
  }

  function PinnedColumns(c: Condition): seq<nat> {
    PinnedBy(Conjuncts(c))
  }

  function PinnedBy(conjuncts: seq<Condition>): seq<nat> {
    if conjuncts == [] then []
    else
      var head := PinnedColumn(conjuncts[0]);
      (if head.Some? then [head.value] else []) + PinnedBy(conjuncts[1..])
  }

  /** A comparison with one literal, either way round, or a list of one. */
  ghost predicate Pins(conjunct: Condition, column: nat) {
    exists v ::
      conjunct in [Equals(Column(column), Literal(v)), Equals(Literal(v), Column(column)), InList(Column(column), [Literal(v)], false)]
  }

  ghost predicate SomePins(conjuncts: seq<Condition>, column: nat) {
    exists k :: 0 <= k < |conjuncts| && Pins(conjuncts[k], column)
  }

  /** The pinned columns are exactly those some conjunct pins. */
  lemma PinnedIff(c: Condition, column: nat)
    ensures column in PinnedColumns(c) <==> SomePins(Conjuncts(c), column)
  {
    hide SomePins;
    PinnedByIff(Conjuncts(c), column);
  }

  lemma {:induction false} PinnedByIff(conjuncts: seq<Condition>, column: nat)
    ensures column in PinnedBy(conjuncts) <==> SomePins(conjuncts, column)
  {
    if conjuncts != [] {
      var head, tail := conjuncts[0], conjuncts[1..];
      PinnedByIff(tail, column);
      PinsIff(head, column);
      hide Pins, PinnedColumn;
      assert conjuncts == [head] + tail;
    }
  }

  lemma PinsIff(conjunct: Condition, column: nat)
    ensures PinnedColumn(conjunct) == Some(column) <==> Pins(conjunct, column)
  {
    match conjunct {
      case Equals(left, right) =>
        if left.Column? && right.Literal? { assert conjunct == Equals(Column(left.id), Literal(right.value)); }
        if left.Literal? && right.Column? { assert conjunct == Equals(Literal(left.value), Column(right.id)); }
      case InList(e, list, negated) =>
        if !negated && e.Column? && |list| == 1 && list[0].Literal? {
          assert list == [Literal(list[0].value)];
          assert conjunct == InList(Column(e.id), [Literal(list[0].value)], false);
        }
      case _ =>
    }
  }

  lemma {:induction false} PinnedByOne(conjuncts: seq<Condition>, column: nat) returns (k: nat)
    requires column in PinnedBy(conjuncts)
    ensures k < |conjuncts| && PinnedColumn(conjuncts[k]) == Some(column)
  {
    if PinnedColumn(conjuncts[0]) == Some(column) {
      k := 0;
    } else {
      var rest := PinnedByOne(conjuncts[1..], column);
      k := rest + 1;
    }
  }

  /** Rows that meet the condition agree on every pinned column. */
  lemma PinnedAgree(c: Condition, column: nat, x: Row, y: Row, sem: Semantics)
    requires column in PinnedColumns(c) && Meets(c, x, sem) && Meets(c, y, sem)
    ensures column < |x| && column < |y| && x[column] == y[column]
  {
    var k := PinnedByOne(Conjuncts(c), column);
    ConjunctMeets(c, x, sem, k);
    ConjunctMeets(c, y, sem, k);
    PinnedValue(Conjuncts(c)[k], column, x, y, sem);
  }

  lemma ConjunctMeets(c: Condition, row: Row, sem: Semantics, k: nat)
    requires Meets(c, row, sem) && k < |Conjuncts(c)|
    ensures Meets(Conjuncts(c)[k], row, sem)
  {
    hide Conjuncts;
    ConjunctsDecide(c, row, sem);
  }

  lemma PinnedValue(conjunct: Condition, column: nat, x: Row, y: Row, sem: Semantics)
    requires PinnedColumn(conjunct) == Some(column) && Meets(conjunct, x, sem) && Meets(conjunct, y, sem)
    ensures column < |x| && column < |y| && x[column] == y[column]
  {
    match conjunct {
      case Equals(left, right) =>
      case InList(e, list, negated) =>
        assert Same(ValueIn(e, x, sem), ValueIn(list[0], x, sem));
        assert Same(ValueIn(e, y, sem), ValueIn(list[0], y, sem));
    }
  }

  // ---------------------------------------------------- the aggregate

  datatype Measure = MinOf(column: nat) | MaxOf(column: nat) | OtherMeasure

  /** The order of values under MIN and MAX; `before` compares what are not numbers. */
  function Pick(largest: bool, x: Value, y: Value, before: (Value, Value) -> bool): Value {
    if x == Undefined then y
    else if y == Undefined then x
    else if before(x, y) == largest then y
    else x
  }

  /** MIN or MAX of a group's values, missing ones skipped. */
  function ExtremumOf(largest: bool, xs: seq<Value>, before: (Value, Value) -> bool): Value {
    if xs == [] then Undefined else Pick(largest, xs[0], ExtremumOf(largest, xs[1..], before), before)
  }

  function CellOf(row: Row, c: nat): Value {
    if c < |row| then row[c] else Undefined
  }

  function KeyOf(row: Row, columns: seq<nat>): Row {
    seq(|columns|, i requires 0 <= i < |columns| => CellOf(row, columns[i]))
  }

  function ColumnOf(rows: seq<Row>, group: seq<nat>, c: nat): seq<Value> {
    seq(|group|, i requires 0 <= i < |group| => if group[i] < |rows| then CellOf(rows[group[i]], c) else Undefined)
  }

  function MeasureOf(m: Measure, rows: seq<Row>, group: seq<nat>, before: (Value, Value) -> bool): Value {
    match m
    case MinOf(c) => ExtremumOf(false, ColumnOf(rows, group, c), before)
    case MaxOf(c) => ExtremumOf(true, ColumnOf(rows, group, c), before)
    case OtherMeasure => Undefined
  }

  /** The first group of the key, or how many there are. */
  function GroupOf(key: Row, groups: seq<seq<nat>>, rows: seq<Row>, groupKeys: seq<nat>): (k: nat)
    ensures k <= |groups|
    ensures k < |groups| ==> groups[k] != [] && groups[k][0] < |rows| && KeyOf(rows[groups[k][0]], groupKeys) == key
  {
    if groups == [] then 0
    else if groups[0] != [] && groups[0][0] < |rows| && KeyOf(rows[groups[0][0]], groupKeys) == key then 0
    else 1 + GroupOf(key, groups[1..], rows, groupKeys)
  }

  /** Row positions by group key, groups in the order of their first row. */
  function Groups(rows: seq<Row>, groupKeys: seq<nat>, n: nat): seq<seq<nat>>
    requires n <= |rows|
  {
    if n == 0 then []
    else
      var groups := Groups(rows, groupKeys, n - 1);
      var k := GroupOf(KeyOf(rows[n - 1], groupKeys), groups, rows, groupKeys);
      if k < |groups| then groups[k := groups[k] + [n - 1]] else groups + [[n - 1]]
  }

  function AggregateRow(rows: seq<Row>, group: seq<nat>, groupKeys: seq<nat>, measures: seq<Measure>,
                        before: (Value, Value) -> bool): Row {
    (if group != [] && group[0] < |rows| then KeyOf(rows[group[0]], groupKeys) else [])
      + seq(|measures|, i requires 0 <= i < |measures| => MeasureOf(measures[i], rows, group, before))
  }

  function Aggregate(rows: seq<Row>, groupKeys: seq<nat>, measures: seq<Measure>,
                     before: (Value, Value) -> bool): seq<Row> {
    var groups := Groups(rows, groupKeys, |rows|);
    seq(|groups|, k requires 0 <= k < |groups| => AggregateRow(rows, groups[k], groupKeys, measures, before))
  }

  ghost function Selected(rows: seq<Row>, filter: Option<Condition>, sem: Semantics): seq<nat> {
    SelectedUpTo(rows, filter, sem, |rows|)
  }

  /** The positions of the first `n` rows that pass the filter. */
  ghost function SelectedUpTo(rows: seq<Row>, filter: Option<Condition>, sem: Semantics, n: nat): (picks: seq<nat>)
    requires n <= |rows|
    ensures forall i :: 0 <= i < |picks| ==> picks[i] < n
    ensures forall i, j :: 0 <= i < j < |picks| ==> picks[i] < picks[j]
    ensures filter.Some? ==> forall i :: 0 <= i < |picks| ==> Meets(filter.value, rows[picks[i]], sem)
  {
    if n == 0 then []
    else
      SelectedUpTo(rows, filter, sem, n - 1)
        + if filter.None? || Meets(filter.value, rows[n - 1], sem) then [n - 1] else []
  }

  ghost function Filtered(rows: seq<Row>, filter: Option<Condition>, sem: Semantics): (r: seq<Row>)
    ensures |r| == |Selected(rows, filter, sem)|
    ensures forall k :: 0 <= k < |r| ==> r[k] == rows[Selected(rows, filter, sem)[k]]
  {
    var picks := Selected(rows, filter, sem);
    seq(|picks|, k requires 0 <= k < |picks| => rows[picks[k]])
  }

  // -------------------------------------------- what the planner accepts

  function ConditionColumns(c: Condition): set<nat>
    decreases c, 1
  {
    match c
    case And(items) => AllConditionColumns(items)
    case Equals(left, right) => Columns(left) + Columns(right)
    case InList(e, list, _) => Columns(e) + ColumnsOf(list)
    case Opaque(e) => Columns(e)
  }

  function AllConditionColumns(items: seq<Condition>): set<nat>
    decreases items, 0
  {
    if items == [] then {} else ConditionColumns(items[0]) + AllConditionColumns(items[1..])
  }

  /** Every column of the key is a group key or pinned, and the filter reads no column beside it. */
  predicate KeyCovers(key: seq<nat>, groupKeys: seq<nat>, filter: Option<Condition>) {
    && (forall i :: 0 <= i < |key| ==> key[i] in groupKeys || (filter.Some? && key[i] in PinnedColumns(filter.value)))
    && (filter.Some? ==> forall c :: c in ConditionColumns(filter.value) ==> c in key)
  }

  predicate AllExtrema(measures: seq<Measure>) {
    measures != [] && forall i :: 0 <= i < |measures| ==> !measures[i].OtherMeasure?
  }

  predicate Accepted(measures: seq<Measure>, groupKeys: seq<nat>, filter: Option<Condition>,
                     uniqueKeys: seq<seq<nat>>) {
    AllExtrema(measures) && exists k :: 0 <= k < |uniqueKeys| && KeyCovers(uniqueKeys[k], groupKeys, filter)
  }

  /** No two rows agree on all the columns. */
  predicate IsUniqueKey(rows: seq<Row>, key: seq<nat>) {
    forall i, j :: 0 <= i < j < |rows| ==> KeyOf(rows[i], key) != KeyOf(rows[j], key)
  }

  // ------------------------------------------------------ at most one row

  /** Rows that pass the filter and agree on the group keys are one row. */
  lemma OneRowPerGroup(rows: seq<Row>, key: seq<nat>, groupKeys: seq<nat>, filter: Option<Condition>, i: nat, j: nat,
                       sem: Semantics)
    requires IsUniqueKey(rows, key) && KeyCovers(key, groupKeys, filter) && i < |rows| && j < |rows|
    requires filter.Some? ==> Meets(filter.value, rows[i], sem) && Meets(filter.value, rows[j], sem)
    requires KeyOf(rows[i], groupKeys) == KeyOf(rows[j], groupKeys)
    ensures i == j
  {
    hide Meets, PinnedColumns, ConditionColumns;
    forall k | 0 <= k < |key| ensures KeyOf(rows[i], key)[k] == KeyOf(rows[j], key)[k] {
      if key[k] in groupKeys {
        var p :| 0 <= p < |groupKeys| && groupKeys[p] == key[k];
        assert KeyOf(rows[i], groupKeys)[p] == KeyOf(rows[j], groupKeys)[p];
      } else {
        PinnedAgree(filter.value, key[k], rows[i], rows[j], sem);
      }
    }
    assert KeyOf(rows[i], key) == KeyOf(rows[j], key);
    UniqueRow(rows, key, i, j);
  }

  lemma UniqueRow(rows: seq<Row>, key: seq<nat>, i: nat, j: nat)
    requires IsUniqueKey(rows, key) && i < |rows| && j < |rows| && KeyOf(rows[i], key) == KeyOf(rows[j], key)
    ensures i == j
  {
    hide KeyOf;
  }

  predicate DistinctKeys(rows: seq<Row>, groupKeys: seq<nat>) {
    forall i, j :: 0 <= i < j < |rows| ==> KeyOf(rows[i], groupKeys) != KeyOf(rows[j], groupKeys)
  }

  lemma FilteredDistinct(rows: seq<Row>, key: seq<nat>, groupKeys: seq<nat>, filter: Option<Condition>, sem: Semantics)
    requires IsUniqueKey(rows, key) && KeyCovers(key, groupKeys, filter)
    ensures DistinctKeys(Filtered(rows, filter, sem), groupKeys)
  {
    hide Meets, KeyCovers, IsUniqueKey, KeyOf;
    var picks, r := Selected(rows, filter, sem), Filtered(rows, filter, sem);
    forall i, j | 0 <= i < j < |r| ensures KeyOf(r[i], groupKeys) != KeyOf(r[j], groupKeys) {
      if KeyOf(r[i], groupKeys) == KeyOf(r[j], groupKeys) { OneRowPerGroup(rows, key, groupKeys, filter, picks[i], picks[j], sem); }
    }
  }

  /** Rows of distinct keys are groups of their own, in row order. */
  lemma {:induction false} SingleGroups(rows: seq<Row>, groupKeys: seq<nat>, n: nat)
    requires DistinctKeys(rows, groupKeys) && n <= |rows|
    ensures |Groups(rows, groupKeys, n)| == n && forall k :: 0 <= k < n ==> Groups(rows, groupKeys, n)[k] == [k]
  {
    hide KeyOf;
    if n > 0 {
      SingleGroups(rows, groupKeys, n - 1);
      var groups := Groups(rows, groupKeys, n - 1);
      var k := GroupOf(KeyOf(rows[n - 1], groupKeys), groups, rows, groupKeys);
      if k < |groups| {
        assert groups[k] == [k];
        assert KeyOf(rows[k], groupKeys) != KeyOf(rows[n - 1], groupKeys);
      }
    }
  }

  /** An aggregate row of one row: its group keys and the measured columns themselves. */
  function Projected(row: Row, groupKeys: seq<nat>, measures: seq<Measure>): Row
    requires AllExtrema(measures)
  {
    KeyOf(row, groupKeys) + seq(|measures|, i requires 0 <= i < |measures| => CellOf(row, measures[i].column))
  }

  lemma SingleMeasure(m: Measure, rows: seq<Row>, k: nat, before: (Value, Value) -> bool)
    requires !m.OtherMeasure? && k < |rows|
    ensures MeasureOf(m, rows, [k], before) == CellOf(rows[k], m.column)
  {
    var xs := ColumnOf(rows, [k], m.column);
    assert xs[1..] == [];
    assert ExtremumOf(m.MaxOf?, xs, before) == Pick(m.MaxOf?, xs[0], Undefined, before);
  }

  /** MIN and MAX over groups of one row are the identity. */
  lemma ExtremaAreIdentity(rows: seq<Row>, groupKeys: seq<nat>, measures: seq<Measure>, before: (Value, Value) -> bool)
    requires DistinctKeys(rows, groupKeys) && AllExtrema(measures)
    ensures |Aggregate(rows, groupKeys, measures, before)| == |rows|
    ensures forall k :: 0 <= k < |rows| ==> Aggregate(rows, groupKeys, measures, before)[k] == Projected(rows[k], groupKeys, measures)
  {
    SingleGroups(rows, groupKeys, |rows|);
    hide KeyOf, DistinctKeys, Groups;
    forall k | 0 <= k < |rows| ensures Aggregate(rows, groupKeys, measures, before)[k] == Projected(rows[k], groupKeys, measures) {
      forall i | 0 <= i < |measures| ensures MeasureOf(measures[i], rows, [k], before) == CellOf(rows[k], measures[i].column) {
        SingleMeasure(measures[i], rows, k, before);
      }
      assert Aggregate(rows, groupKeys, measures, before)[k] == AggregateRow(rows, [k], groupKeys, measures, before);
    }
  }

  // --------------------------------------------- truth and estimate alike

  /** Estimated rows: as many as the true ones, and equal to them on the key. */
  predicate KeysExact(truth: seq<Row>, estimate: seq<Row>, key: seq<nat>) {
    && |truth| == |estimate|
    && forall r :: 0 <= r < |truth| ==> forall i :: 0 <= i < |key| ==> CellOf(truth[r], key[i]) == CellOf(estimate[r], key[i])
  }

  lemma {:induction false} MeetsAlike(c: Condition, x: Row, y: Row, sem: Semantics)
    requires forall column :: column in ConditionColumns(c) ==> CellOf(x, column) == CellOf(y, column)
    ensures Meets(c, x, sem) <==> Meets(c, y, sem)
    decreases c, 1
  {
    match c {
      case And(items) => AllMeetAlike(items, x, y, sem);
      case Equals(left, right) =>
        ValuesAlike(left, x, y, sem);
        ValuesAlike(right, x, y, sem);
      case InList(e, list, _) =>
        ValuesAlike(e, x, y, sem);
        forall i | 0 <= i < |list| ensures ValueIn(list[i], x, sem) == ValueIn(list[i], y, sem) {
          ColumnOfItem(list, i);
          ValuesAlike(list[i], x, y, sem);
        }
      case Opaque(e) => ValuesAlike(e, x, y, sem);
    }
  }

  lemma {:induction false} AllMeetAlike(items: seq<Condition>, x: Row, y: Row, sem: Semantics)
    requires forall column :: column in AllConditionColumns(items) ==> CellOf(x, column) == CellOf(y, column)
    ensures AllMeet(items, x, sem) <==> AllMeet(items, y, sem)
    decreases items, 0
  {
    if items != [] {
      MeetsAlike(items[0], x, y, sem);
      AllMeetAlike(items[1..], x, y, sem);
    }
  }

  lemma {:induction false} ColumnOfItem(list: seq<Expr>, i: nat)
    requires i < |list|
    ensures Columns(list[i]) <= ColumnsOf(list)
  {
    if i > 0 { ColumnOfItem(list[1..], i - 1); }
  }

  lemma ValuesAlike(e: Expr, x: Row, y: Row, sem: Semantics)
    requires forall column :: column in Columns(e) ==> CellOf(x, column) == CellOf(y, column)
    ensures ValueIn(e, x, sem) == ValueIn(e, y, sem)
  {
    forall column | column in Columns(e) ensures EnvOf(x).column(column) == EnvOf(y).column(column) {
      assert CellOf(x, column) == CellOf(y, column);
    }
    ScalarSoundness.LeavesDecide(e, EnvOf(x), EnvOf(y), sem);
  }

  lemma {:induction false} SameSelection(truth: seq<Row>, estimate: seq<Row>, key: seq<nat>, groupKeys: seq<nat>,
                                         filter: Option<Condition>,
                                         sem: Semantics, n: nat)
    requires KeysExact(truth, estimate, key) && KeyCovers(key, groupKeys, filter) && n <= |truth|
    ensures SelectedUpTo(truth, filter, sem, n) == SelectedUpTo(estimate, filter, sem, n)
  {
    hide Meets, ConditionColumns, PinnedColumns, CellOf;
    if n > 0 {
      SameSelection(truth, estimate, key, groupKeys, filter, sem, n - 1);
      if filter.Some? {
        forall column | column in ConditionColumns(filter.value)
          ensures CellOf(truth[n - 1], column) == CellOf(estimate[n - 1], column)
        {
          var i :| 0 <= i < |key| && key[i] == column;
        }
        MeetsAlike(filter.value, truth[n - 1], estimate[n - 1], sem);
      }
    }
  }

  lemma EstimateKeyUnique(truth: seq<Row>, estimate: seq<Row>, key: seq<nat>)
    requires KeysExact(truth, estimate, key) && IsUniqueKey(truth, key)
    ensures IsUniqueKey(estimate, key)
  {
    hide CellOf;
    forall r | 0 <= r < |truth| ensures KeyOf(truth[r], key) == KeyOf(estimate[r], key) {}
    forall i, j | 0 <= i < j < |estimate| ensures KeyOf(estimate[i], key) != KeyOf(estimate[j], key) {
      assert KeyOf(truth[i], key) != KeyOf(truth[j], key);
    }
  }

  /**
   An accepted aggregate selects the same rows of truth and estimate, in order,
   one group each, and copies their cells.
   */
  lemma AcceptedCopiesRows(truth: seq<Row>, estimate: seq<Row>, key: seq<nat>, groupKeys: seq<nat>,
                           filter: Option<Condition>,
                           measures: seq<Measure>, before: (Value, Value) -> bool, sem: Semantics)
    returns (picks: seq<nat>)
    requires IsUniqueKey(truth, key) && KeysExact(truth, estimate, key)
    requires AllExtrema(measures) && KeyCovers(key, groupKeys, filter)
    ensures forall k :: 0 <= k < |picks| ==> picks[k] < |truth| == |estimate|
    ensures var t, e := Aggregate(Filtered(truth, filter, sem), groupKeys, measures, before),
                      Aggregate(Filtered(estimate, filter, sem), groupKeys, measures, before);
      && |t| == |e| == |picks|
      && forall k :: 0 <= k < |picks| ==>
           t[k] == Projected(truth[picks[k]], groupKeys, measures) && e[k] == Projected(estimate[picks[k]], groupKeys, measures)
  {
    hide KeyCovers, KeyOf, Aggregate, Projected, IsUniqueKey, Meets;
    SameSelection(truth, estimate, key, groupKeys, filter, sem, |truth|);
    EstimateKeyUnique(truth, estimate, key);
    FilteredDistinct(truth, key, groupKeys, filter, sem);
    FilteredDistinct(estimate, key, groupKeys, filter, sem);
    ExtremaAreIdentity(Filtered(truth, filter, sem), groupKeys, measures, before);
    ExtremaAreIdentity(Filtered(estimate, filter, sem), groupKeys, measures, before);
    picks := Selected(truth, filter, sem);
  }

  /** So a guarantee of the estimate's cells is one of the aggregate's measures. */
  lemma MeasuresKeepGuarantee(truth: seq<Row>, estimate: seq<Row>, uniqueKeys: seq<seq<nat>>, groupKeys: seq<nat>,
                              filter: Option<Condition>,
                              measures: seq<Measure>, before: (Value, Value) -> bool, sem: Semantics, g: Guarantee)
    requires Accepted(measures, groupKeys, filter, uniqueKeys)
    requires forall u :: 0 <= u < |uniqueKeys| ==> IsUniqueKey(truth, uniqueKeys[u]) && KeysExact(truth, estimate, uniqueKeys[u])
    requires forall r, c: nat :: 0 <= r < |truth| && r < |estimate| ==> Accurate(g, CellOf(truth[r], c), CellOf(estimate[r], c))
    ensures var t, e := Aggregate(Filtered(truth, filter, sem), groupKeys, measures, before),
                      Aggregate(Filtered(estimate, filter, sem), groupKeys, measures, before);
      && |t| == |e|
      && forall k, c: nat :: 0 <= k < |t| ==> Accurate(g, CellOf(t[k], c), CellOf(e[k], c))
  {
    var u :| 0 <= u < |uniqueKeys| && KeyCovers(uniqueKeys[u], groupKeys, filter);
    hide KeyCovers, KeyOf, Aggregate, IsUniqueKey, Meets, Accurate, Filtered;
    var picks := AcceptedCopiesRows(truth, estimate, uniqueKeys[u], groupKeys, filter, measures, before, sem);
    var t, e := Aggregate(Filtered(truth, filter, sem), groupKeys, measures, before),
                      Aggregate(Filtered(estimate, filter, sem), groupKeys, measures, before);
    forall k, c: nat | 0 <= k < |t| ensures Accurate(g, CellOf(t[k], c), CellOf(e[k], c)) {
      ProjectedCells(truth[picks[k]], estimate[picks[k]], groupKeys, measures, g, c);
    }
  }

  lemma ProjectedCells(x: Row, y: Row, groupKeys: seq<nat>, measures: seq<Measure>, g: Guarantee, c: nat)
    requires AllExtrema(measures)
    requires forall i: nat :: Accurate(g, CellOf(x, i), CellOf(y, i))
    ensures Accurate(g, CellOf(Projected(x, groupKeys, measures), c), CellOf(Projected(y, groupKeys, measures), c))
  {
    hide Accurate;
    if c >= |groupKeys| + |measures| {
      assert CellOf(Projected(x, groupKeys, measures), c) == Undefined == CellOf(Projected(y, groupKeys, measures), c);
      LipschitzRules.SameAccurate(g, Undefined);
    }
  }
}
