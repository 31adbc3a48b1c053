/**
 The logical operators of the IR as a stage document writes them: the viewer
 reads back their inputs and what their scalar expressions read, and renumbers
 them as the planner does (crates/types/src/ir/operator/non_asap.rs:57-260,
 crates/types/src/ir/operator/asap.rs:24-160, tools/dag-viewer/stages.js:118-197).
 */
module ViewerOperatorForms {
  import opened Results
  import opened ViewerOperators
  import opened ViewerScalarForms

  // ----------------------------------------------------- written fields

  datatype ProjectItem = ProjectItem(alias: Data, expr: Scalar)

  datatype SortKey = SortKey(expr: Scalar, ascending: Data, nullsFirst: Data)

  /** One field of an operator's body: data, inputs, or scalar expressions. */
  datatype Slot =
    | DataSlot(name: string, data: Data)
    | InputSlot(name: string, id: int)
    | InputsSlot(name: string, ids: seq<int>)
    | ExprSlot(name: string, expr: Scalar)
    | ExprsSlot(name: string, exprs: seq<Scalar>)
    | RowsSlot(name: string, rows: seq<seq<Scalar>>)
    | OptionSlot(name: string, option: Option<Scalar>)
    | OptionsSlot(name: string, options: seq<Option<Scalar>>)
    | ItemsSlot(name: string, items: seq<ProjectItem>)
    | KeysSlot(name: string, keys: seq<SortKey>)

  function Ids(ids: seq<int>): seq<Json> {
    if ids == [] then [] else [Num(ids[0])] + Ids(ids[1..])
  }

  function WrittenRows(rows: seq<seq<Scalar>>): seq<Json> {
    if rows == [] then [] else [Arr(WrittenAll(rows[0]))] + WrittenRows(rows[1..])
  }

  function WrittenOptions(options: seq<Option<Scalar>>): seq<Json> {
    if options == [] then [] else [WrittenOption(options[0])] + WrittenOptions(options[1..])
  }

  function WrittenItems(items: seq<ProjectItem>): seq<Json> {
    if items == [] then []
    else [Obj([Field("alias", items[0].alias), Field("expr", Written(items[0].expr))])] + WrittenItems(items[1..])
  }

  function WrittenKeys(keys: seq<SortKey>): seq<Json> {
    if keys == [] then []
    else
      [Obj([Field("expr", Written(keys[0].expr)), Field("ascending", keys[0].ascending), Field("nulls_first", keys[0].nullsFirst)])]
        + WrittenKeys(keys[1..])
  }

  function SlotValue(slot: Slot): Json {
    match slot
    case DataSlot(_, data) => data
    case InputSlot(_, id) => Num(id)
    case InputsSlot(_, ids) => Arr(Ids(ids))
    case ExprSlot(_, expr) => Written(expr)
    case ExprsSlot(_, exprs) => Arr(WrittenAll(exprs))
    case RowsSlot(_, rows) => Arr(WrittenRows(rows))
    case OptionSlot(_, option) => WrittenOption(option)
    case OptionsSlot(_, options) => Arr(WrittenOptions(options))
    case ItemsSlot(_, items) => Arr(WrittenItems(items))
    case KeysSlot(_, keys) => Arr(WrittenKeys(keys))
  }

  function Fields(slots: seq<Slot>): seq<Field> {
    if slots == [] then [] else [Field(slots[0].name, SlotValue(slots[0]))] + Fields(slots[1..])
  }

  // ---------------------------------------------------- expressions held

  function Flattened(rows: seq<seq<Scalar>>): seq<Scalar> {
    if rows == [] then [] else rows[0] + Flattened(rows[1..])
  }

  function Present(options: seq<Option<Scalar>>): seq<Scalar> {
    if options == [] then [] else (if options[0].Some? then [options[0].value] else []) + Present(options[1..])
  }

  function ItemExprs(items: seq<ProjectItem>): seq<Scalar> {
    if items == [] then [] else [items[0].expr] + ItemExprs(items[1..])
  }

  function KeyExprs(keys: seq<SortKey>): seq<Scalar> {
    if keys == [] then [] else [keys[0].expr] + KeyExprs(keys[1..])
  }

  predicate IsInput(slot: Slot) {
    slot.InputSlot? || slot.InputsSlot?
  }

  function SlotInputs(slot: Slot): seq<int> {
    match slot
    case InputSlot(_, id) => [id]
    case InputsSlot(_, ids) => ids
    case _ => []
  }

  function SlotExprs(slot: Slot): seq<Scalar> {
    match slot
    case ExprSlot(_, expr) => [expr]
    case ExprsSlot(_, exprs) => exprs
    case RowsSlot(_, rows) => Flattened(rows)
    case OptionSlot(_, option) => Present([option])
    case OptionsSlot(_, options) => Present(options)
    case ItemsSlot(_, items) => ItemExprs(items)
    case KeysSlot(_, keys) => KeyExprs(keys)
    case _ => []
  }

  function InputsOf(slots: seq<Slot>): seq<int> {
    if slots == [] then [] else SlotInputs(slots[0]) + InputsOf(slots[1..])
  }

  function ExprsOf(slots: seq<Slot>): seq<Scalar> {
    if slots == [] then [] else SlotExprs(slots[0]) + ExprsOf(slots[1..])
  }

  // ------------------------------------------------- reading back a slot

  lemma FirstReads(e: Scalar, rest: seq<Scalar>)
    ensures ReadsOf([e] + rest) == Reads(e) + ReadsOf(rest)
  {
    hide Reads;
    assert ([e] + rest)[1..] == rest;
  }

  lemma Regrouped<T>(a: seq<T>, b: seq<T>, c: seq<T>)
    ensures a + (b + c) == (a + b) + c
  {
  }

  lemma {:induction false} ReadsConcat(a: seq<Scalar>, b: seq<Scalar>)
    ensures ReadsOf(a + b) == ReadsOf(a) + ReadsOf(b)
  {
    if a == [] {
      assert a + b == b && ReadsOf(a) == [];
    } else {
      var first, rest := a[0], a[1..];
      ReadsConcat(rest, b);
      FirstReads(first, rest);
      FirstReads(first, rest + b);
      Regrouped([first], rest, b);
      Regrouped(Reads(first), ReadsOf(rest), ReadsOf(b));
      hide ReadsOf, Reads;
      assert a == [first] + rest;
    }
  }

  lemma OneExpr(e: Scalar)
    ensures ReadsOf([e]) == Reads(e)
  {
    hide Reads;
    assert [e][1..] == [];
  }

  lemma FirstItem(item: Json, rest: seq<Json>)
    ensures ItemsRefs([item] + rest) == ScalarRefs(item) + ItemsRefs(rest)
  {
    hide ScalarRefs;
    assert ([item] + rest)[1..] == rest;
  }

  lemma {:induction false} RowsReadBack(rows: seq<seq<Scalar>>)
    ensures ItemsRefs(WrittenRows(rows)) == ReadsOf(Flattened(rows))
  {
    if rows != [] {
      RowsReadBack(rows[1..]);
      AllReadBack(rows[0]);
      ItemsAre(WrittenAll(rows[0]));
      ReadsConcat(rows[0], Flattened(rows[1..]));
      hide ScalarRefs, ItemsRefs, WrittenAll, ReadsOf;
      FirstItem(Arr(WrittenAll(rows[0])), WrittenRows(rows[1..]));
    }
  }

  lemma {:induction false} OptionsReadBack(options: seq<Option<Scalar>>)
    ensures ItemsRefs(WrittenOptions(options)) == ReadsOf(Present(options))
  {
    if options != [] {
      OptionsReadBack(options[1..]);
      var head := if options[0].Some? then [options[0].value] else [];
      ReadsConcat(head, Present(options[1..]));
      FirstItem(WrittenOption(options[0]), WrittenOptions(options[1..]));
      if options[0].Some? {
        ReadBack(options[0].value);
        OneExpr(options[0].value);
      } else {
        assert ScalarRefs(WrittenOption(options[0])) == [];
      }
      hide ScalarRefs, ItemsRefs, ReadsOf, Written, Reads;
    }
  }

  lemma {:induction false} ItemsReadBack(items: seq<ProjectItem>)
    ensures ItemsRefs(WrittenItems(items)) == ReadsOf(ItemExprs(items))
  {
    if items != [] {
      var item := items[0];
      var a, b := Field("alias", item.alias), Field("expr", Written(item.expr));
      ItemsReadBack(items[1..]);
      FirstItem(Obj([a, b]), WrittenItems(items[1..]));
      TwoRefs(a, b);
      DataField("alias", item.alias);
      ExprField("expr", item.expr);
      ReadBack(item.expr);
      OneExpr(item.expr);
      ReadsConcat([item.expr], ItemExprs(items[1..]));
      hide ScalarRefs, ItemsRefs, ReadsOf, Written, Reads, FieldRefs;
    }
  }

  lemma {:induction false} KeysReadBack(keys: seq<SortKey>)
    ensures ItemsRefs(WrittenKeys(keys)) == ReadsOf(KeyExprs(keys))
  {
    if keys != [] {
      var key := keys[0];
      var a, b, c := Field("expr", Written(key.expr)), Field("ascending", key.ascending), Field("nulls_first", key.nullsFirst);
      KeysReadBack(keys[1..]);
      FirstItem(Obj([a, b, c]), WrittenKeys(keys[1..]));
      ThreeRefs(a, b, c);
      ExprField("expr", key.expr);
      DataField("ascending", key.ascending);
      DataField("nulls_first", key.nullsFirst);
      ReadBack(key.expr);
      OneExpr(key.expr);
      ReadsConcat([key.expr], KeyExprs(keys[1..]));
      hide ScalarRefs, ItemsRefs, ReadsOf, Written, Reads, FieldRefs;
    }
  }

  lemma ArrField(name: string, items: seq<Json>)
    ensures FieldRefs(Field(name, Arr(items))) == ItemsRefs(items)
  {
    Inside(name, Arr(items));
    ItemsAre(items);
  }

  /** A body field that is no input holds what its expressions read. */
  lemma SlotReadBack(slot: Slot)
    requires !IsInput(slot) && slot.name !in SCALAR_REF_FIELDS
    ensures FieldRefs(Field(slot.name, SlotValue(slot))) == ReadsOf(SlotExprs(slot))
  {
    hide ScalarRefs, ItemsRefs, FieldRefs, Written, Reads;
    match slot {
      case DataSlot(name, data) => DataField(name, data);
      case ExprSlot(name, expr) => ExprField(name, expr); ReadBack(expr); OneExpr(expr);
      case ExprsSlot(name, exprs) => ListField(name, exprs); AllReadBack(exprs);
      case RowsSlot(name, rows) => ArrField(name, WrittenRows(rows)); RowsReadBack(rows);
      case OptionSlot(name, option) =>
        OptionReadBack(name, option);
        OptionExprs(option);
      case OptionsSlot(name, options) => ArrField(name, WrittenOptions(options)); OptionsReadBack(options);
      case ItemsSlot(name, items) => ArrField(name, WrittenItems(items)); ItemsReadBack(items);
      case KeysSlot(name, keys) => ArrField(name, WrittenKeys(keys)); KeysReadBack(keys);
    }
  }

  lemma OptionExprs(option: Option<Scalar>)
    ensures ReadsOf(Present([option])) == OptionReads(option)
  {
    assert [option][1..] == [];
    if option.Some? { OneExpr(option.value); }
  }

  // ------------------------------------------------- reading back a body

  /** A name of a field that holds ids of inputs. */
  predicate InputName(name: string) {
    name in CHILD_FIELDS
  }

  /** A name that means nothing to the viewer. */
  predicate PlainName(name: string) {
    name !in CHILD_FIELDS && name !in SCALAR_REF_FIELDS
  }

  predicate Named(slots: seq<Slot>) {
    forall j :: 0 <= j < |slots| ==> if IsInput(slots[j]) then InputName(slots[j].name) else PlainName(slots[j].name)
  }

  predicate DistinctStrings(names: seq<string>) {
    forall i, j :: 0 <= i < j < |names| ==> names[i] != names[j]
  }

  lemma ChildNamesDistinct()
    ensures DistinctStrings(CHILD_FIELDS) && |CHILD_FIELDS| == 9
  {
  }

  lemma {:induction false} OthersReadBack(slots: seq<Slot>)
    requires Named(slots)
    ensures OtherRefs(Fields(slots)) == ReadsOf(ExprsOf(slots))
  {
    if slots != [] {
      var slot, rest := slots[0], slots[1..];
      OthersReadBack(rest);
      ReadsConcat(SlotExprs(slot), ExprsOf(rest));
      if !IsInput(slot) { SlotReadBack(slot); }
      hide FieldRefs, ReadsOf, SlotValue, CHILD_FIELDS, SCALAR_REF_FIELDS;
      assert Fields(slots)[1..] == Fields(rest);
      assert IsInput(slot) ==> SlotExprs(slot) == [];
    }
  }

  lemma {:induction false} NumbersOfIds(ids: seq<int>)
    ensures Numbers(Ids(ids)) == ids
  {
    if ids != [] {
      NumbersOfIds(ids[1..]);
      assert Ids(ids)[1..] == Ids(ids[1..]);
    }
  }

  lemma InputReadBack(slot: Slot)
    requires IsInput(slot)
    ensures ChildIds(SlotValue(slot)) == SlotInputs(slot)
  {
    if slot.InputsSlot? { NumbersOfIds(slot.ids); }
  }

  lemma {:induction false} LookupSlot(slots: seq<Slot>, i: nat)
    requires i < |slots| && forall j :: 0 <= j < i ==> slots[j].name != slots[i].name
    ensures Lookup(Fields(slots), slots[i].name) == SlotValue(slots[i])
  {
    hide SlotValue;
    if i > 0 {
      LookupSlot(slots[1..], i - 1);
      assert Fields(slots)[1..] == Fields(slots[1..]);
    }
  }

  lemma {:induction false} LookupNone(slots: seq<Slot>, name: string)
    requires forall j :: 0 <= j < |slots| ==> slots[j].name != name
    ensures Lookup(Fields(slots), name) == Null
  {
    hide SlotValue;
    if slots != [] {
      LookupNone(slots[1..], name);
      assert Fields(slots)[1..] == Fields(slots[1..]);
    }
  }

  lemma {:induction false} NoInputs(slots: seq<Slot>, names: seq<string>)
    requires forall j :: 0 <= j < |slots| ==> slots[j].name !in names
    ensures ChildFieldIds(Fields(slots), names) == []
  {
    hide Fields;
    if names != [] {
      LookupNone(slots, names[0]);
      NoInputs(slots, names[1..]);
    }
  }

  lemma {:induction false} OneInput(slots: seq<Slot>, i: nat, names: seq<string>, k: nat)
    requires i < |slots| && IsInput(slots[i]) && DistinctStrings(names) && k < |names| && names[k] == slots[i].name
    requires forall j :: 0 <= j < |slots| && j != i ==> slots[j].name !in names
    ensures ChildFieldIds(Fields(slots), names) == SlotInputs(slots[i])
  {
    hide Fields, ChildIds, SlotInputs, IsInput;
    if k == 0 {
      LookupSlot(slots, i);
      InputReadBack(slots[i]);
      forall j | 0 <= j < |slots| ensures slots[j].name !in names[1..] {
        if j == i { NotAgain(names); }
      }
      NoInputs(slots, names[1..]);
    } else {
      NotSame(names, k);
      LookupNone(slots, names[0]);
      NothingThere();
      OneInput(slots, i, names[1..], k - 1);
    }
  }

  lemma NothingThere()
    ensures ChildIds(Null) == []
  {
  }

  lemma NotAgain(names: seq<string>)
    requires names != [] && DistinctStrings(names)
    ensures names[0] !in names[1..]
  {
  }

  lemma NotSame(names: seq<string>, k: nat)
    requires DistinctStrings(names) && 0 < k < |names|
    ensures names[0] != names[k] && DistinctStrings(names[1..])
  {
  }

  lemma {:induction false} TwoInputs(slots: seq<Slot>, i: nat, j: nat, names: seq<string>, k: nat, m: nat)
    requires i < j < |slots| && IsInput(slots[i]) && IsInput(slots[j]) && DistinctStrings(names)
    requires k < m < |names| && names[k] == slots[i].name && names[m] == slots[j].name
    requires forall l :: 0 <= l < |slots| && l != i && l != j ==> slots[l].name !in names
    ensures ChildFieldIds(Fields(slots), names) == SlotInputs(slots[i]) + SlotInputs(slots[j])
  {
    hide Fields, ChildIds, SlotInputs, IsInput;
    NotSame(names, m);
    if k == 0 {
      LookupSlot(slots, i);
      InputReadBack(slots[i]);
      NotAgain(names);
      OneInput(slots, j, names[1..], m - 1);
    } else {
      NotSame(names, k);
      LookupNone(slots, names[0]);
      NothingThere();
      TwoInputs(slots, i, j, names[1..], k - 1, m - 1);
    }
  }

  /** The names of the fields that hold inputs. */
  function NamesIn(slots: seq<Slot>): seq<string> {
    if slots == [] then [] else SlotNames(slots[0]) + NamesIn(slots[1..])
  }

  function SlotNames(slot: Slot): seq<string> {
    if IsInput(slot) then [slot.name] else []
  }

  lemma {:induction false} NoneIn(slots: seq<Slot>)
    requires NamesIn(slots) == []
    ensures InputsOf(slots) == [] && forall j :: 0 <= j < |slots| ==> !IsInput(slots[j])
  {
    if slots != [] { NoneIn(slots[1..]); }
  }

  /** The first field that holds inputs. */
  lemma {:induction false} FirstIn(slots: seq<Slot>) returns (i: nat)
    requires NamesIn(slots) != []
    ensures i < |slots| && IsInput(slots[i]) && forall j :: 0 <= j < i ==> !IsInput(slots[j])
    ensures NamesIn(slots) == [slots[i].name] + NamesIn(slots[i + 1..])
    ensures InputsOf(slots) == SlotInputs(slots[i]) + InputsOf(slots[i + 1..])
  {
    if IsInput(slots[0]) {
      i := 0;
    } else {
      var rest := FirstIn(slots[1..]);
      i := rest + 1;
      assert slots[1..][rest + 1..] == slots[i + 1..];
    }
  }

  lemma PlainElsewhere(slots: seq<Slot>, i: nat)
    requires Named(slots) && i < |slots| && !IsInput(slots[i])
    ensures slots[i].name !in CHILD_FIELDS
  {
  }

  /** A body with one field of inputs. */
  lemma OneNameReadBack(slots: seq<Slot>)
    requires Named(slots) && |NamesIn(slots)| == 1
    ensures ChildFieldIds(Fields(slots), CHILD_FIELDS) == InputsOf(slots)
  {
    ChildNamesDistinct();
    var i := FirstIn(slots);
    NoneIn(slots[i + 1..]);
    assert slots[i].name in CHILD_FIELDS;
    forall j | 0 <= j < |slots| && j != i ensures slots[j].name !in CHILD_FIELDS {
      if j > i { assert slots[j] == slots[i + 1..][j - i - 1]; }
      PlainElsewhere(slots, j);
    }
    hide Fields, ChildFieldIds, CHILD_FIELDS, NamesIn, Named, DistinctStrings;
    var k :| 0 <= k < |CHILD_FIELDS| && CHILD_FIELDS[k] == slots[i].name;
    OneInput(slots, i, CHILD_FIELDS, k);
  }

  /** A body with two inputs, in the order the viewer looks for them. */
  lemma TwoNamesReadBack(slots: seq<Slot>, k: nat)
    requires Named(slots) && k + 1 < |CHILD_FIELDS| && NamesIn(slots) == [CHILD_FIELDS[k], CHILD_FIELDS[k + 1]]
    ensures ChildFieldIds(Fields(slots), CHILD_FIELDS) == InputsOf(slots)
  {
    ChildNamesDistinct();
    hide CHILD_FIELDS;
    assert NamesIn(slots) == [CHILD_FIELDS[k]] + [CHILD_FIELDS[k + 1]];
    var i, j := BothIn(slots, CHILD_FIELDS[k], CHILD_FIELDS[k + 1]);
    forall l | 0 <= l < |slots| && l != i && l != j ensures slots[l].name !in CHILD_FIELDS { PlainElsewhere(slots, l); }
    hide Fields, ChildFieldIds, NamesIn, Named, DistinctStrings;
    TwoInputs(slots, i, j, CHILD_FIELDS, k, k + 1);
  }

  lemma HeadAndTail(a: string, rest: seq<string>, b: string, others: seq<string>)
    requires [a] + rest == [b] + others
    ensures a == b && rest == others
  {
    assert ([a] + rest)[0] == ([b] + others)[0];
    assert ([a] + rest)[1..] == rest && ([b] + others)[1..] == others;
  }

  lemma BothIn(slots: seq<Slot>, first: string, second: string) returns (i: nat, j: nat)
    requires NamesIn(slots) == [first] + [second]
    ensures i < j < |slots| && forall l :: 0 <= l < |slots| ==> (IsInput(slots[l]) <==> l == i || l == j)
    ensures slots[i].name == first && slots[j].name == second
    ensures InputsOf(slots) == SlotInputs(slots[i]) + SlotInputs(slots[j])
  {
    hide InputsOf, SlotInputs;
    i := FirstIn(slots);
    var rest := slots[i + 1..];
    HeadAndTail(first, [second], slots[i].name, NamesIn(rest));
    var m := FirstIn(rest);
    assert [second] == [second] + [];
    HeadAndTail(second, [], rest[m].name, NamesIn(rest[m + 1..]));
    NoneIn(rest[m + 1..]);
    j := i + 1 + m;
    hide NamesIn, InputsOf, IsInput;
    assert rest[m] == slots[j];
    forall l | 0 <= l < |slots| ensures IsInput(slots[l]) <==> l == i || l == j {
      if i < l < j { assert slots[l] == rest[l - i - 1]; }
      if l > j { assert slots[l] == rest[m + 1..][l - j - 1]; }
    }
  }

  // ---------------------------------------------------- renaming a body

  function MapIds(ids: seq<int>, g: int -> int): seq<int> {
    if ids == [] then [] else [g(ids[0])] + MapIds(ids[1..], g)
  }

  function MapRows(rows: seq<seq<Scalar>>, g: int -> int): seq<seq<Scalar>> {
    if rows == [] then [] else [MapScalars(rows[0], g)] + MapRows(rows[1..], g)
  }

  function MapOptions(options: seq<Option<Scalar>>, g: int -> int): seq<Option<Scalar>> {
    if options == [] then [] else [MapOption(options[0], g)] + MapOptions(options[1..], g)
  }

  function MapItemExprs(items: seq<ProjectItem>, g: int -> int): seq<ProjectItem> {
    if items == [] then [] else [ProjectItem(items[0].alias, MapScalar(items[0].expr, g))] + MapItemExprs(items[1..], g)
  }

  function MapKeys(keys: seq<SortKey>, g: int -> int): seq<SortKey> {
    if keys == [] then []
    else [SortKey(MapScalar(keys[0].expr, g), keys[0].ascending, keys[0].nullsFirst)] + MapKeys(keys[1..], g)
  }

  function MapSlot(slot: Slot, g: int -> int): Slot {
    match slot
    case DataSlot(_, _) => slot
    case InputSlot(name, id) => InputSlot(name, g(id))
    case InputsSlot(name, ids) => InputsSlot(name, MapIds(ids, g))
    case ExprSlot(name, expr) => ExprSlot(name, MapScalar(expr, g))
    case ExprsSlot(name, exprs) => ExprsSlot(name, MapScalars(exprs, g))
    case RowsSlot(name, rows) => RowsSlot(name, MapRows(rows, g))
    case OptionSlot(name, option) => OptionSlot(name, MapOption(option, g))
    case OptionsSlot(name, options) => OptionsSlot(name, MapOptions(options, g))
    case ItemsSlot(name, items) => ItemsSlot(name, MapItemExprs(items, g))
    case KeysSlot(name, keys) => KeysSlot(name, MapKeys(keys, g))
  }

  function MapSlots(slots: seq<Slot>, g: int -> int): seq<Slot> {
    if slots == [] then [] else [MapSlot(slots[0], g)] + MapSlots(slots[1..], g)
  }

  lemma {:induction false} IdsRenamed(ids: seq<int>, g: int -> int)
    ensures RenamedItems(Ids(ids), Total(g)) == Ids(MapIds(ids, g))
  {
    if ids != [] {
      IdsRenamed(ids[1..], g);
      assert Ids(ids)[1..] == Ids(ids[1..]) && MapIds(ids, g)[1..] == MapIds(ids[1..], g);
    }
  }

  lemma InputRenamed(slot: Slot, g: int -> int)
    requires IsInput(slot)
    ensures MapChildField(SlotValue(slot), Total(g)) == SlotValue(MapSlot(slot, g))
  {
    if slot.InputsSlot? { IdsRenamed(slot.ids, g); }
  }

  lemma FirstMapped(item: Json, rest: seq<Json>, f: Renaming)
    ensures MapItems([item] + rest, f) == [MapScalarRefs(item, f)] + MapItems(rest, f)
  {
    hide MapScalarRefs;
    assert ([item] + rest)[1..] == rest;
  }

  lemma {:induction false} RowsRenamed(rows: seq<seq<Scalar>>, g: int -> int)
    ensures MapItems(WrittenRows(rows), Total(g)) == WrittenRows(MapRows(rows, g))
  {
    if rows != [] {
      RowsRenamed(rows[1..], g);
      ScalarsWritten(rows[0], g);
      MappedArr(WrittenAll(rows[0]), Total(g));
      hide MapScalarRefs, MapItems, WrittenAll, MapScalars;
      FirstMapped(Arr(WrittenAll(rows[0])), WrittenRows(rows[1..]), Total(g));
      assert MapRows(rows, g)[1..] == MapRows(rows[1..], g);
    }
  }

  lemma WrittenOptionRenamed(option: Option<Scalar>, g: int -> int)
    ensures MapScalarRefs(WrittenOption(option), Total(g)) == WrittenOption(MapOption(option, g))
  {
    if option.Some? { ScalarWritten(option.value, g); }
  }

  lemma {:induction false} OptionsRenamed(options: seq<Option<Scalar>>, g: int -> int)
    ensures MapItems(WrittenOptions(options), Total(g)) == WrittenOptions(MapOptions(options, g))
  {
    if options != [] {
      OptionsRenamed(options[1..], g);
      WrittenOptionRenamed(options[0], g);
      hide MapScalarRefs, MapItems, WrittenOption, MapOption;
      FirstMapped(WrittenOption(options[0]), WrittenOptions(options[1..]), Total(g));
      assert MapOptions(options, g)[1..] == MapOptions(options[1..], g);
    }
  }

  lemma {:induction false} ItemsRenamed(items: seq<ProjectItem>, g: int -> int)
    ensures MapItems(WrittenItems(items), Total(g)) == WrittenItems(MapItemExprs(items, g))
  {
    if items != [] {
      var item, f := items[0], Total(g);
      var a, b := Field("alias", item.alias), Field("expr", Written(item.expr));
      ItemsRenamed(items[1..], g);
      FirstMapped(Obj([a, b]), WrittenItems(items[1..]), f);
      MappedObj([a, b], f);
      TwoMapped(a, b, f);
      MappedData("alias", item.alias, f);
      ScalarWritten(item.expr, g);
      MappedExpr("expr", item.expr, g);
      hide MapScalarRefs, MapItems, MapFields, MapField, Written, MapScalar;
      assert MapItemExprs(items, g)[1..] == MapItemExprs(items[1..], g);
    }
  }

  lemma {:induction false} KeysRenamed(keys: seq<SortKey>, g: int -> int)
    ensures MapItems(WrittenKeys(keys), Total(g)) == WrittenKeys(MapKeys(keys, g))
  {
    if keys != [] {
      var key, f := keys[0], Total(g);
      var a, b, c := Field("expr", Written(key.expr)), Field("ascending", key.ascending), Field("nulls_first", key.nullsFirst);
      KeysRenamed(keys[1..], g);
      FirstMapped(Obj([a, b, c]), WrittenKeys(keys[1..]), f);
      MappedObj([a, b, c], f);
      ThreeMapped(a, b, c, f);
      ScalarWritten(key.expr, g);
      MappedExpr("expr", key.expr, g);
      MappedData("ascending", key.ascending, f);
      MappedData("nulls_first", key.nullsFirst, f);
      hide MapScalarRefs, MapItems, MapFields, MapField, Written, MapScalar;
      assert MapKeys(keys, g)[1..] == MapKeys(keys[1..], g);
    }
  }

  lemma SlotRenamed(slot: Slot, g: int -> int)
    requires !IsInput(slot) && slot.name !in SCALAR_REF_FIELDS
    ensures MapField(Field(slot.name, SlotValue(slot)), Total(g)) == Field(slot.name, SlotValue(MapSlot(slot, g)))
  {
    hide MapField, MapScalarRefs, MapItems, Written, MapScalar, Total;
    var f := Total(g);
    match slot {
      case DataSlot(name, data) => MappedData(name, data, f);
      case ExprSlot(name, expr) => ScalarWritten(expr, g); MappedExpr(name, expr, g);
      case ExprsSlot(name, exprs) => MappedList(name, WrittenAll(exprs), f); ScalarsWritten(exprs, g);
      case RowsSlot(name, rows) => MappedList(name, WrittenRows(rows), f); RowsRenamed(rows, g);
      case OptionSlot(name, option) => OptionWritten(name, option, g);
      case OptionsSlot(name, options) => MappedList(name, WrittenOptions(options), f); OptionsRenamed(options, g);
      case ItemsSlot(name, items) => MappedList(name, WrittenItems(items), f); ItemsRenamed(items, g);
      case KeysSlot(name, keys) => MappedList(name, WrittenKeys(keys), f); KeysRenamed(keys, g);
    }
  }

  lemma {:induction false} BodyRenamed(slots: seq<Slot>, g: int -> int)
    requires Named(slots)
    ensures MapBody(Fields(slots), Total(g)) == Fields(MapSlots(slots, g))
  {
    if slots != [] {
      var slot := slots[0];
      BodyRenamed(slots[1..], g);
      if IsInput(slot) { InputRenamed(slot, g); } else { SlotRenamed(slot, g); }
      hide MapField, MapChildField, SlotValue, Total, CHILD_FIELDS, SCALAR_REF_FIELDS;
      assert Fields(slots)[1..] == Fields(slots[1..]);
      assert MapSlots(slots, g)[1..] == MapSlots(slots[1..], g);
      assert MapSlot(slot, g).name == slot.name;
    }
  }

  // --------------------------------------------------------- operators

  /** Every operator of the IR, its inputs by node id. */
  datatype PlanOp =
    | Scan(source: Data, predicates: seq<Scalar>, schema: Data)
    | Values(rows: seq<seq<Scalar>>, schema: Data)
    | Filter(pred: Scalar, child: int)
    | Project(cols: seq<ProjectItem>, qualifier: Data, child: int)
    | Aggregate(reduction: Data, measures: Data, outputNames: Data, filters: seq<Option<Scalar>>, having: Option<Scalar>, child: int)
    | Join(kind: Data, pred: Scalar, left: int, right: int)
    | SetOp(kind: Data, all: Data, left: int, right: int)
    | Concat(children: seq<int>)
    | Dedup(columns: Data, child: int)
    | Sort(keys: seq<SortKey>, partitionBy: Data, child: int)
    | Limit(n: Data, offset: Data, partitionBy: Data, child: int)
    | BinaryOp(operator: Data, returnBool: Data, lhs: int, rhs: int)
    | SQLWindowFunc(func: Data, args: seq<Scalar>, partitionBy: Data, orderBy: seq<SortKey>, frame: Data, outputName: Data, child: int)
    | TimeRange(range: Data, kind: Data, child: int)
    | TimeShift(shift: Data, child: int)
    | PromqlVectorFromScalar(scalar: Scalar)
    | PromqlRelabel(dst: Data, value: Scalar, child: int)
    | PromqlInfoEnrich(selector: Data, child: int)
    | PromqlSeriesSample(grouping: Data, kind: Data, child: int)
    | PromqlSubquery(range: Data, resolution: Data, child: int)
    | SummaryAgg(child: int, family: Data, input: Data, reduction: Data, grouping: Data, filter: Option<Scalar>)
    | SummaryEstimate(summaryInput: int, query: Data)
    | FinalizeExactAccumulator(child: int)
    | MaintainPopulation(child: int, population: Data)
    | EvaluatePopulation(child: int, evaluation: Data)
    | SummaryMerge(children: seq<int>, newestTumblingWindows: Option<Data>, groupBy: Option<Data>)
    | SummaryTumblingWindowChain(child: int, family: Data, input: Data, reduction: Data, grouping: Data, filter: Option<Scalar>,
                                 widthMs: Data, count: Data)
    | SummarySubtract(left: int, right: int)
    | SummaryDelete(summaryInput: int, key: Data)
    | SummaryJoin(outer: int, inner: int, key: Data, family: Data)
    | Extension(child: int, name: Data)

  /** The direct inputs, in field order. */
  function Inputs(op: PlanOp): seq<int> {
    match op
    case Scan(_, _, _) => []
    case Values(_, _) => []
    case PromqlVectorFromScalar(_) => []
    case Join(_, _, left, right) => [left, right]
    case SetOp(_, _, left, right) => [left, right]
    case BinaryOp(_, _, lhs, rhs) => [lhs, rhs]
    case SummarySubtract(left, right) => [left, right]
    case SummaryJoin(outer, inner, _, _) => [outer, inner]
    case Concat(children) => children
    case SummaryMerge(children, _, _) => children
    case SummaryEstimate(summaryInput, _) => [summaryInput]
    case SummaryDelete(summaryInput, _) => [summaryInput]
    case _ => [op.child]
  }

  /** The scalar expressions the operator owns. */
  function Exprs(op: PlanOp): seq<Scalar> {
    match op
    case Scan(_, predicates, _) => predicates
    case Values(rows, _) => Flattened(rows)
    case Filter(pred, _) => [pred]
    case Join(_, pred, _, _) => [pred]
    case Project(cols, _, _) => ItemExprs(cols)
    case Aggregate(_, _, _, filters, having, _) => Present(filters) + Present([having])
    case Sort(keys, _, _) => KeyExprs(keys)
    case SQLWindowFunc(_, args, _, orderBy, _, _, _) => args + KeyExprs(orderBy)
    case PromqlVectorFromScalar(scalar) => [scalar]
    case PromqlRelabel(_, value, _) => [value]
    case SummaryAgg(_, _, _, _, _, filter) => Present([filter])
    case SummaryTumblingWindowChain(_, _, _, _, _, filter, _, _) => Present([filter])
    case _ => []
  }

  /** The nodes an operator reads: its inputs, then those of its scalar expressions. */
  function Children(op: PlanOp): seq<int> {
    Inputs(op) + OperatorRefsOf(Exprs(op))
  }

  /** The operator with every node it reads renamed. */
  function MapChildren(op: PlanOp, g: int -> int): PlanOp {
    match op
    case Scan(source, predicates, schema) => Scan(source, MapScalars(predicates, g), schema)
    case Values(rows, schema) => Values(MapRows(rows, g), schema)
    case Filter(pred, child) => Filter(MapScalar(pred, g), g(child))
    case Project(cols, qualifier, child) => Project(MapItemExprs(cols, g), qualifier, g(child))
    case Aggregate(reduction, measures, names, filters, having, child) =>
      Aggregate(reduction, measures, names, MapOptions(filters, g), MapOption(having, g), g(child))
    case Join(kind, pred, left, right) => Join(kind, MapScalar(pred, g), g(left), g(right))
    case SetOp(kind, all, left, right) => SetOp(kind, all, g(left), g(right))
    case Concat(children) => Concat(MapIds(children, g))
    case Sort(keys, partitionBy, child) => Sort(MapKeys(keys, g), partitionBy, g(child))
    case BinaryOp(operator, returnBool, lhs, rhs) => BinaryOp(operator, returnBool, g(lhs), g(rhs))
    case SQLWindowFunc(func, args, partitionBy, orderBy, frame, outputName, child) =>
      SQLWindowFunc(func, MapScalars(args, g), partitionBy, MapKeys(orderBy, g), frame, outputName, g(child))
    case PromqlVectorFromScalar(scalar) => PromqlVectorFromScalar(MapScalar(scalar, g))
    case PromqlRelabel(dst, value, child) => PromqlRelabel(dst, MapScalar(value, g), g(child))
    case SummaryAgg(child, family, input, reduction, grouping, filter) =>
      SummaryAgg(g(child), family, input, reduction, grouping, MapOption(filter, g))
    case SummaryEstimate(summaryInput, query) => SummaryEstimate(g(summaryInput), query)
    case SummaryMerge(children, newest, groupBy) => SummaryMerge(MapIds(children, g), newest, groupBy)
    case SummaryTumblingWindowChain(child, family, input, reduction, grouping, filter, widthMs, count) =>
      SummaryTumblingWindowChain(g(child), family, input, reduction, grouping, MapOption(filter, g), widthMs, count)
    case SummarySubtract(left, right) => SummarySubtract(g(left), g(right))
    case SummaryDelete(summaryInput, key) => SummaryDelete(g(summaryInput), key)
    case SummaryJoin(outer, inner, key, family) => SummaryJoin(g(outer), g(inner), key, family)
    case Dedup(columns, child) => Dedup(columns, g(child))
    case Limit(n, offset, partitionBy, child) => Limit(n, offset, partitionBy, g(child))
    case TimeRange(range, kind, child) => TimeRange(range, kind, g(child))
    case TimeShift(shift, child) => TimeShift(shift, g(child))
    case PromqlInfoEnrich(selector, child) => PromqlInfoEnrich(selector, g(child))
    case PromqlSeriesSample(grouping, kind, child) => PromqlSeriesSample(grouping, kind, g(child))
    case PromqlSubquery(range, resolution, child) => PromqlSubquery(range, resolution, g(child))
    case FinalizeExactAccumulator(child) => FinalizeExactAccumulator(g(child))
    case MaintainPopulation(child, population) => MaintainPopulation(g(child), population)
    case EvaluatePopulation(child, evaluation) => EvaluatePopulation(g(child), evaluation)
    case Extension(child, name) => Extension(g(child), name)
  }

  predicate IsSummary(op: PlanOp) {
    op.SummaryAgg? || op.SummaryEstimate? || op.FinalizeExactAccumulator? || op.MaintainPopulation? || op.EvaluatePopulation?
    || op.SummaryMerge? || op.SummaryTumblingWindowChain? || op.SummarySubtract? || op.SummaryDelete? || op.SummaryJoin?
    || op.Extension?
  }

  /** The operators that are built from summaries, and extensions. */
  predicate IsMerging(op: PlanOp) {
    op.SummaryMerge? || op.SummarySubtract? || op.SummaryDelete? || op.SummaryJoin? || op.Extension?
  }

  function Kind(op: PlanOp): string {
    match op
    case Scan(_, _, _) => "Scan"
    case Values(_, _) => "Values"
    case Filter(_, _) => "Filter"
    case Project(_, _, _) => "Project"
    case Aggregate(_, _, _, _, _, _) => "Aggregate"
    case Join(_, _, _, _) => "Join"
    case SetOp(_, _, _, _) => "SetOp"
    case Concat(_) => "Concat"
    case Dedup(_, _) => "Dedup"
    case Sort(_, _, _) => "Sort"
    case Limit(_, _, _, _) => "Limit"
    case BinaryOp(_, _, _, _) => "BinaryOp"
    case SQLWindowFunc(_, _, _, _, _, _, _) => "SQLWindowFunc"
    case TimeRange(_, _, _) => "TimeRange"
    case TimeShift(_, _) => "TimeShift"
    case PromqlVectorFromScalar(_) => "PromqlVectorFromScalar"
    case PromqlRelabel(_, _, _) => "PromqlRelabel"
    case PromqlInfoEnrich(_, _) => "PromqlInfoEnrich"
    case PromqlSeriesSample(_, _, _) => "PromqlSeriesSample"
    case PromqlSubquery(_, _, _) => "PromqlSubquery"
    case SummaryAgg(_, _, _, _, _, _) => "SummaryAgg"
    case SummaryEstimate(_, _) => "SummaryEstimate"
    case FinalizeExactAccumulator(_) => "FinalizeExactAccumulator"
    case MaintainPopulation(_, _) => "MaintainPopulation"
    case EvaluatePopulation(_, _) => "EvaluatePopulation"
    case SummaryMerge(_, _, _) => "SummaryMerge"
    case SummaryTumblingWindowChain(_, _, _, _, _, _, _, _) => "SummaryTumblingWindowChain"
    case SummarySubtract(_, _) => "SummarySubtract"
    case SummaryDelete(_, _) => "SummaryDelete"
    case SummaryJoin(_, _, _, _) => "SummaryJoin"
    case Extension(_, _) => "Extension"
  }

  function Given(name: string, data: Option<Data>): seq<Slot> {
    if data.Some? then [DataSlot(name, data.value)] else []
  }

  /** The body's fields, as declared. `vector(s)` has none: its body is the expression. */
  function Slots(op: PlanOp): seq<Slot>
    requires !op.PromqlVectorFromScalar?
  {
    match op
    case Scan(source, predicates, schema) =>
      [DataSlot("source", source), ExprsSlot("predicates", predicates), DataSlot("schema", schema)]
    case Values(rows, schema) => [RowsSlot("rows", rows), DataSlot("schema", schema)]
    case Filter(pred, child) => [ExprSlot("pred", pred), InputSlot("child", child)]
    case Project(cols, qualifier, child) => [ItemsSlot("cols", cols), DataSlot("qualifier", qualifier), InputSlot("child", child)]
    case Aggregate(reduction, measures, names, filters, having, child) =>
      [DataSlot("reduction", reduction), DataSlot("measures", measures), DataSlot("output_names", names),
       OptionsSlot("filters", filters), OptionSlot("having", having), InputSlot("child", child)]
    case Join(kind, pred, left, right) =>
      [DataSlot("kind", kind), ExprSlot("pred", pred), InputSlot("left", left), InputSlot("right", right)]
    case SetOp(kind, all, left, right) =>
      [DataSlot("kind", kind), DataSlot("all", all), InputSlot("left", left), InputSlot("right", right)]
    case Concat(children) => [InputsSlot("children", children)]
    case Dedup(columns, child) => [DataSlot("cols", columns), InputSlot("child", child)]
    case Sort(keys, partitionBy, child) => [KeysSlot("keys", keys), DataSlot("partition_by", partitionBy), InputSlot("child", child)]
    case Limit(n, offset, partitionBy, child) =>
      [DataSlot("n", n), DataSlot("offset", offset), DataSlot("partition_by", partitionBy), InputSlot("child", child)]
    case BinaryOp(operator, returnBool, lhs, rhs) =>
      [DataSlot("operator", operator), DataSlot("return_bool", returnBool), InputSlot("lhs", lhs), InputSlot("rhs", rhs)]
    case SQLWindowFunc(func, args, partitionBy, orderBy, frame, outputName, child) =>
      [DataSlot("func", func), ExprsSlot("args", args), DataSlot("partition_by", partitionBy), KeysSlot("order_by", orderBy),
       DataSlot("frame", frame), DataSlot("output_name", outputName), InputSlot("child", child)]
    case TimeRange(range, kind, child) => [DataSlot("range", range), DataSlot("kind", kind), InputSlot("child", child)]
    case TimeShift(shift, child) => [DataSlot("shift", shift), InputSlot("child", child)]
    case PromqlRelabel(dst, value, child) => [DataSlot("dst", dst), ExprSlot("value", value), InputSlot("child", child)]
    case PromqlInfoEnrich(selector, child) => [DataSlot("selector", selector), InputSlot("child", child)]
    case PromqlSeriesSample(grouping, kind, child) => [DataSlot("by", grouping), DataSlot("kind", kind), InputSlot("child", child)]
    case PromqlSubquery(range, resolution, child) =>
      [DataSlot("range", range), DataSlot("resolution", resolution), InputSlot("child", child)]
    case SummaryAgg(child, family, input, reduction, grouping, filter) =>
      [InputSlot("child", child), DataSlot("family", family), DataSlot("input", input), DataSlot("reduction", reduction),
       DataSlot("grouping", grouping), OptionSlot("filter", filter)]
    case SummaryEstimate(summaryInput, query) => [InputSlot("summary_input", summaryInput), DataSlot("query", query)]
    case FinalizeExactAccumulator(child) => [InputSlot("child", child)]
    case MaintainPopulation(child, population) => [InputSlot("child", child), DataSlot("population", population)]
    case EvaluatePopulation(child, evaluation) => [InputSlot("child", child), DataSlot("evaluation", evaluation)]
    case SummaryMerge(children, newest, groupBy) =>
      [InputsSlot("children", children)] + (Given("newest_tumbling_windows", newest) + Given("group_by", groupBy))
    case SummaryTumblingWindowChain(child, family, input, reduction, grouping, filter, widthMs, count) =>
      [InputSlot("child", child), DataSlot("family", family), DataSlot("input", input), DataSlot("reduction", reduction),
       DataSlot("grouping", grouping), OptionSlot("filter", filter), DataSlot("tumbling_window_width_ms", widthMs),
       DataSlot("tumbling_window_count", count)]
    case SummarySubtract(left, right) => [InputSlot("left", left), InputSlot("right", right)]
    case SummaryDelete(summaryInput, key) => [InputSlot("summary_input", summaryInput), DataSlot("key", key)]
    case SummaryJoin(outer, inner, key, family) =>
      [InputSlot("outer", outer), InputSlot("inner", inner), DataSlot("key", key), DataSlot("family", family)]
    case Extension(child, name) => [InputSlot("child", child), DataSlot("name", name)]
  }

  function Body(op: PlanOp): Json {
    if op.PromqlVectorFromScalar? then Written(op.scalar) else Obj(Fields(Slots(op)))
  }

  /** The operator in a stage document. */
  function Serialized(op: PlanOp): Json {
    Tagged(if IsSummary(op) then "ASAP" else "NonASAP", Tagged(Kind(op), Body(op)))
  }

  // ------------------------------------------------------ names of fields

  lemma RelationalNames()
    ensures PlainName("source") && PlainName("predicates") && PlainName("schema") && PlainName("rows") && PlainName("pred")
  {
  }

  lemma ColumnNames()
    ensures PlainName("cols") && PlainName("qualifier") && PlainName("kind") && PlainName("all")
  {
  }

  lemma AggregateNames()
    ensures PlainName("reduction") && PlainName("measures") && PlainName("output_names") && PlainName("filters") && PlainName("having")
  {
  }

  lemma OrderNames()
    ensures PlainName("keys") && PlainName("partition_by") && PlainName("n") && PlainName("offset") && PlainName("operator")
    ensures PlainName("return_bool")
  {
  }

  lemma WindowNames()
    ensures PlainName("func") && PlainName("args") && PlainName("order_by") && PlainName("frame") && PlainName("output_name")
  {
  }

  lemma PromqlNames()
    ensures PlainName("range") && PlainName("shift") && PlainName("dst") && PlainName("value") && PlainName("selector")
    ensures PlainName("by") && PlainName("resolution")
  {
  }

  lemma SummaryNames()
    ensures PlainName("family") && PlainName("input") && PlainName("grouping") && PlainName("filter") && PlainName("query")
  {
  }

  lemma StateNames()
    ensures PlainName("population") && PlainName("evaluation") && PlainName("key") && PlainName("name")
  {
  }

  lemma MergeNames()
    ensures PlainName("newest_tumbling_windows") && PlainName("group_by")
    ensures PlainName("tumbling_window_width_ms") && PlainName("tumbling_window_count")
  {
  }

  lemma InputNames()
    ensures InputName("child") && InputName("children") && InputName("left") && InputName("right") && InputName("lhs") && InputName("rhs")
    ensures InputName("summary_input") && InputName("outer") && InputName("inner")
  {
    assert CHILD_FIELDS[0] == "child" && CHILD_FIELDS[1] == "children" && CHILD_FIELDS[2] == "left" && CHILD_FIELDS[3] == "right";
    assert CHILD_FIELDS[4] == "lhs" && CHILD_FIELDS[5] == "rhs" && CHILD_FIELDS[6] == "summary_input";
    assert CHILD_FIELDS[7] == "outer" && CHILD_FIELDS[8] == "inner";
  }

  /** The operators of tables. */
  predicate IsRelational(op: PlanOp) {
    op.Scan? || op.Values? || op.Filter? || op.Project? || op.Aggregate? || op.Join? || op.SetOp? || op.Concat? || op.Dedup?
  }

  lemma RelationalNamed(op: PlanOp)
    requires IsRelational(op)
    ensures Named(Slots(op))
  {
    hide PlainName, InputName;
    RelationalNames();
    ColumnNames();
    AggregateNames();
    InputNames();
  }

  lemma OrderedNamed(op: PlanOp)
    requires !op.PromqlVectorFromScalar? && !IsRelational(op) && !IsSummary(op)
    ensures Named(Slots(op))
  {
    hide PlainName, InputName;
    ColumnNames();
    OrderNames();
    WindowNames();
    PromqlNames();
    InputNames();
  }

  lemma SummaryNamed(op: PlanOp)
    requires IsSummary(op) && !IsMerging(op) && !op.SummaryTumblingWindowChain?
    ensures Named(Slots(op))
  {
    hide PlainName, InputName;
    AggregateNames();
    SummaryNames();
    StateNames();
    InputNames();
  }

  lemma MergingNamed(op: PlanOp)
    requires IsMerging(op) && !op.SummaryMerge?
    ensures Named(Slots(op))
  {
    hide PlainName, InputName;
    SummaryNames();
    StateNames();
    InputNames();
  }

  lemma WindowedNamed(op: PlanOp)
    requires op.SummaryMerge? || op.SummaryTumblingWindowChain?
    ensures Named(Slots(op))
  {
    hide PlainName, InputName;
    AggregateNames();
    SummaryNames();
    MergeNames();
    InputNames();
  }

  lemma AllNamed(op: PlanOp)
    requires !op.PromqlVectorFromScalar?
    ensures Named(Slots(op))
  {
    hide Named, Slots;
    if op.SummaryMerge? || op.SummaryTumblingWindowChain? {
      WindowedNamed(op);
    } else if IsMerging(op) {
      MergingNamed(op);
    } else if IsSummary(op) {
      SummaryNamed(op);
    } else if IsRelational(op) {
      RelationalNamed(op);
    } else {
      OrderedNamed(op);
    }
  }

  // ---------------------------------------- what the viewer reads of each

  lemma First(slot: Slot, rest: seq<Slot>)
    ensures InputsOf([slot] + rest) == SlotInputs(slot) + InputsOf(rest)
    ensures ExprsOf([slot] + rest) == SlotExprs(slot) + ExprsOf(rest)
    ensures NamesIn([slot] + rest) == SlotNames(slot) + NamesIn(rest)
  {
    hide SlotInputs, SlotExprs, SlotNames;
    assert ([slot] + rest)[1..] == rest;
  }

  lemma Of1(a: Slot)
    ensures InputsOf([a]) == SlotInputs(a)
    ensures ExprsOf([a]) == SlotExprs(a)
    ensures NamesIn([a]) == SlotNames(a)
  {
    assert [a][1..] == [];
  }

  lemma Of2(a: Slot, b: Slot)
    ensures InputsOf([a, b]) == SlotInputs(a) + SlotInputs(b)
    ensures ExprsOf([a, b]) == SlotExprs(a) + SlotExprs(b)
    ensures NamesIn([a, b]) == SlotNames(a) + SlotNames(b)
  {
    hide SlotInputs, SlotExprs, SlotNames;
    Of1(b);
    First(a, [b]);
    assert [a] + [b] == [a, b];
  }

  lemma Of3(a: Slot, b: Slot, c: Slot)
    ensures InputsOf([a, b, c]) == SlotInputs(a) + SlotInputs(b) + SlotInputs(c)
    ensures ExprsOf([a, b, c]) == SlotExprs(a) + SlotExprs(b) + SlotExprs(c)
    ensures NamesIn([a, b, c]) == SlotNames(a) + SlotNames(b) + SlotNames(c)
  {
    hide SlotInputs, SlotExprs, SlotNames;
    Of2(b, c);
    First(a, [b, c]);
    assert [a] + [b, c] == [a, b, c];
  }

  lemma AddData(slot: Slot, rest: seq<Slot>)
    requires slot.DataSlot?
    ensures InputsOf([slot] + rest) == InputsOf(rest) && ExprsOf([slot] + rest) == ExprsOf(rest) && NamesIn([slot] + rest) == NamesIn(rest)
  {
    First(slot, rest);
    hide InputsOf, ExprsOf, NamesIn;
  }

  lemma AddExprs(slot: Slot, rest: seq<Slot>)
    requires !IsInput(slot)
    ensures InputsOf([slot] + rest) == InputsOf(rest) && ExprsOf([slot] + rest) == SlotExprs(slot) + ExprsOf(rest)
    ensures NamesIn([slot] + rest) == NamesIn(rest)
  {
    First(slot, rest);
    hide InputsOf, ExprsOf, NamesIn;
  }

  lemma AddInput(slot: Slot, rest: seq<Slot>)
    requires IsInput(slot)
    ensures InputsOf([slot] + rest) == SlotInputs(slot) + InputsOf(rest) && ExprsOf([slot] + rest) == ExprsOf(rest)
    ensures NamesIn([slot] + rest) == [slot.name] + NamesIn(rest)
  {
    First(slot, rest);
    hide InputsOf, ExprsOf, NamesIn;
  }

  lemma OnlyInput(slot: Slot)
    requires IsInput(slot)
    ensures InputsOf([slot]) == SlotInputs(slot) && ExprsOf([slot]) == [] && NamesIn([slot]) == [slot.name]
  {
    Of1(slot);
  }

  lemma OnlySlot(slot: Slot)
    requires !IsInput(slot)
    ensures InputsOf([slot]) == [] && ExprsOf([slot]) == SlotExprs(slot) && NamesIn([slot]) == []
  {
    Of1(slot);
  }

  lemma NoData(slot: Slot)
    requires slot.DataSlot?
    ensures SlotExprs(slot) == [] && !IsInput(slot)
  {
  }

  // Bodies by shape, with what is only data left out.

  lemma PairOf(a: Slot, b: Slot)
    requires IsInput(a) && IsInput(b)
    ensures InputsOf([a, b]) == SlotInputs(a) + SlotInputs(b) && ExprsOf([a, b]) == [] && NamesIn([a, b]) == [a.name, b.name]
  {
    hide InputsOf, ExprsOf, NamesIn, SlotInputs, SlotExprs;
    OnlyInput(b);
    AddInput(a, [b]);
    assert [a] + [b] == [a, b];
  }

  lemma PairFirst(a: Slot, b: Slot, c: Slot, d: Slot)
    requires IsInput(a) && IsInput(b) && c.DataSlot? && d.DataSlot?
    ensures InputsOf([a, b, c, d]) == SlotInputs(a) + SlotInputs(b) && ExprsOf([a, b, c, d]) == []
    ensures NamesIn([a, b, c, d]) == [a.name, b.name]
  {
    hide InputsOf, ExprsOf, NamesIn, SlotInputs, SlotExprs;
    OnlySlot(d);
    NoData(d);
    AddData(c, [d]);
    assert [c] + [d] == [c, d];
    AddInput(b, [c, d]);
    assert [b] + [c, d] == [b, c, d];
    AddInput(a, [b, c, d]);
    assert [a] + [b, c, d] == [a, b, c, d];
  }

  lemma PairLast(a: Slot, b: Slot, c: Slot, d: Slot)
    requires a.DataSlot? && !IsInput(b) && IsInput(c) && IsInput(d)
    ensures InputsOf([a, b, c, d]) == SlotInputs(c) + SlotInputs(d) && ExprsOf([a, b, c, d]) == SlotExprs(b)
    ensures NamesIn([a, b, c, d]) == [c.name, d.name]
  {
    hide InputsOf, ExprsOf, NamesIn, SlotInputs, SlotExprs;
    OnlyInput(d);
    AddInput(c, [d]);
    assert [c] + [d] == [c, d];
    AddExprs(b, [c, d]);
    assert [b] + [c, d] == [b, c, d];
    AddData(a, [b, c, d]);
    assert [a] + [b, c, d] == [a, b, c, d];
  }

  lemma LimitOf(a: Slot, b: Slot, c: Slot, d: Slot)
    requires a.DataSlot? && b.DataSlot? && c.DataSlot? && IsInput(d)
    ensures InputsOf([a, b, c, d]) == SlotInputs(d) && ExprsOf([a, b, c, d]) == [] && |NamesIn([a, b, c, d])| == 1
  {
    hide InputsOf, ExprsOf, NamesIn, SlotInputs, SlotExprs;
    OnlyInput(d);
    AddData(c, [d]);
    assert [c] + [d] == [c, d];
    AddData(b, [c, d]);
    assert [b] + [c, d] == [b, c, d];
    AddData(a, [b, c, d]);
    assert [a] + [b, c, d] == [a, b, c, d];
  }

  lemma AggregateOf(a: Slot, b: Slot, c: Slot, d: Slot, e: Slot, f: Slot)
    requires a.DataSlot? && b.DataSlot? && c.DataSlot? && !IsInput(d) && !IsInput(e) && IsInput(f)
    ensures InputsOf([a, b, c, d, e, f]) == SlotInputs(f) && ExprsOf([a, b, c, d, e, f]) == SlotExprs(d) + SlotExprs(e)
    ensures |NamesIn([a, b, c, d, e, f])| == 1
  {
    hide InputsOf, ExprsOf, NamesIn, SlotInputs, SlotExprs;
    OnlyInput(f);
    AddExprs(e, [f]);
    assert [e] + [f] == [e, f];
    AddExprs(d, [e, f]);
    assert [d] + [e, f] == [d, e, f];
    AddData(c, [d, e, f]);
    assert [c] + [d, e, f] == [c, d, e, f];
    AddData(b, [c, d, e, f]);
    assert [b] + [c, d, e, f] == [b, c, d, e, f];
    AddData(a, [b, c, d, e, f]);
    assert [a] + [b, c, d, e, f] == [a, b, c, d, e, f];
  }

  lemma WindowOf(a: Slot, b: Slot, c: Slot, d: Slot, e: Slot, f: Slot, g: Slot)
    requires a.DataSlot? && c.DataSlot? && e.DataSlot? && f.DataSlot? && !IsInput(b) && !IsInput(d) && IsInput(g)
    ensures InputsOf([a, b, c, d, e, f, g]) == SlotInputs(g) && ExprsOf([a, b, c, d, e, f, g]) == SlotExprs(b) + SlotExprs(d)
    ensures |NamesIn([a, b, c, d, e, f, g])| == 1
  {
    hide InputsOf, ExprsOf, NamesIn, SlotInputs, SlotExprs;
    OnlyInput(g);
    AddData(f, [g]);
    assert [f] + [g] == [f, g];
    AddData(e, [f, g]);
    assert [e] + [f, g] == [e, f, g];
    AddExprs(d, [e, f, g]);
    assert [d] + [e, f, g] == [d, e, f, g];
    AddData(c, [d, e, f, g]);
    assert [c] + [d, e, f, g] == [c, d, e, f, g];
    AddExprs(b, [c, d, e, f, g]);
    assert [b] + [c, d, e, f, g] == [b, c, d, e, f, g];
    AddData(a, [b, c, d, e, f, g]);
    assert [a] + [b, c, d, e, f, g] == [a, b, c, d, e, f, g];
  }

  lemma BuildOf(a: Slot, b: Slot, c: Slot, d: Slot, e: Slot, f: Slot)
    requires IsInput(a) && b.DataSlot? && c.DataSlot? && d.DataSlot? && e.DataSlot? && !IsInput(f)
    ensures InputsOf([a, b, c, d, e, f]) == SlotInputs(a) && ExprsOf([a, b, c, d, e, f]) == SlotExprs(f)
    ensures |NamesIn([a, b, c, d, e, f])| == 1
  {
    hide InputsOf, ExprsOf, NamesIn, SlotInputs, SlotExprs;
    OnlySlot(f);
    AddData(e, [f]);
    assert [e] + [f] == [e, f];
    AddData(d, [e, f]);
    assert [d] + [e, f] == [d, e, f];
    AddData(c, [d, e, f]);
    assert [c] + [d, e, f] == [c, d, e, f];
    AddData(b, [c, d, e, f]);
    assert [b] + [c, d, e, f] == [b, c, d, e, f];
    AddInput(a, [b, c, d, e, f]);
    assert [a] + [b, c, d, e, f] == [a, b, c, d, e, f];
  }

  lemma ChainOf(a: Slot, b: Slot, c: Slot, d: Slot, e: Slot, f: Slot, g: Slot, h: Slot)
    requires IsInput(a) && b.DataSlot? && c.DataSlot? && d.DataSlot? && e.DataSlot? && !IsInput(f) && g.DataSlot? && h.DataSlot?
    ensures InputsOf([a, b, c, d, e, f, g, h]) == SlotInputs(a) && ExprsOf([a, b, c, d, e, f, g, h]) == SlotExprs(f)
    ensures |NamesIn([a, b, c, d, e, f, g, h])| == 1
  {
    hide InputsOf, ExprsOf, NamesIn, SlotInputs, SlotExprs;
    OnlySlot(h);
    NoData(h);
    AddData(g, [h]);
    assert [g] + [h] == [g, h];
    AddExprs(f, [g, h]);
    assert [f] + [g, h] == [f, g, h];
    AddData(e, [f, g, h]);
    assert [e] + [f, g, h] == [e, f, g, h];
    AddData(d, [e, f, g, h]);
    assert [d] + [e, f, g, h] == [d, e, f, g, h];
    AddData(c, [d, e, f, g, h]);
    assert [c] + [d, e, f, g, h] == [c, d, e, f, g, h];
    AddData(b, [c, d, e, f, g, h]);
    assert [b] + [c, d, e, f, g, h] == [b, c, d, e, f, g, h];
    AddInput(a, [b, c, d, e, f, g, h]);
    assert [a] + [b, c, d, e, f, g, h] == [a, b, c, d, e, f, g, h];
  }

  /** The fields of a body hold the operator's inputs and expressions, the inputs in the order the viewer looks for them. */
  ghost predicate Holds(op: PlanOp)
    requires !op.PromqlVectorFromScalar?
  {
    InputsOf(Slots(op)) == Inputs(op) && ExprsOf(Slots(op)) == Exprs(op) && InViewerOrder(NamesIn(Slots(op)))
  }

  predicate InViewerOrder(names: seq<string>) {
    || |names| <= 1 || names == ["left", "right"] || names == ["lhs", "rhs"] || names == ["outer", "inner"]
  }

  lemma SourceContents(op: PlanOp)
    requires op.Scan? || op.Values? || op.Concat? || op.Dedup?
    ensures Holds(op)
  {
    hide InputsOf, ExprsOf, NamesIn, Flattened, ItemExprs, KeyExprs, Present;
    match op {
      case Scan(source, predicates, schema) =>
        Of3(DataSlot("source", source), ExprsSlot("predicates", predicates), DataSlot("schema", schema));
      case Values(rows, schema) => Of2(RowsSlot("rows", rows), DataSlot("schema", schema));
      case Concat(children) => Of1(InputsSlot("children", children));
      case Dedup(columns, child) => Of2(DataSlot("cols", columns), InputSlot("child", child));
    }
  }

  lemma RowContents(op: PlanOp)
    requires op.Filter? || op.Project? || op.Aggregate?
    ensures Holds(op)
  {
    hide InputsOf, ExprsOf, NamesIn, Flattened, ItemExprs, KeyExprs, Present;
    match op {
      case Filter(pred, child) => Of2(ExprSlot("pred", pred), InputSlot("child", child));
      case Project(cols, qualifier, child) =>
        Of3(ItemsSlot("cols", cols), DataSlot("qualifier", qualifier), InputSlot("child", child));
      case Aggregate(reduction, measures, names, filters, having, child) =>
        AggregateOf(DataSlot("reduction", reduction), DataSlot("measures", measures), DataSlot("output_names", names),
            OptionsSlot("filters", filters), OptionSlot("having", having), InputSlot("child", child));
    }
  }

  lemma PairContents(op: PlanOp)
    requires op.Join? || op.SetOp? || op.BinaryOp?
    ensures Holds(op)
  {
    hide InputsOf, ExprsOf, NamesIn, Flattened, ItemExprs, KeyExprs, Present;
    match op {
      case Join(kind, pred, left, right) =>
        PairLast(DataSlot("kind", kind), ExprSlot("pred", pred), InputSlot("left", left), InputSlot("right", right));
      case SetOp(kind, all, left, right) =>
        PairLast(DataSlot("kind", kind), DataSlot("all", all), InputSlot("left", left), InputSlot("right", right));
      case BinaryOp(operator, returnBool, lhs, rhs) =>
        PairLast(DataSlot("operator", operator), DataSlot("return_bool", returnBool), InputSlot("lhs", lhs),
            InputSlot("rhs", rhs));
    }
  }

  lemma OrderContents(op: PlanOp)
    requires op.Sort? || op.Limit? || op.SQLWindowFunc?
    ensures Holds(op)
  {
    hide InputsOf, ExprsOf, NamesIn, Flattened, ItemExprs, KeyExprs, Present;
    match op {
      case Sort(keys, partitionBy, child) =>
        Of3(KeysSlot("keys", keys), DataSlot("partition_by", partitionBy), InputSlot("child", child));
      case Limit(n, offset, partitionBy, child) =>
        LimitOf(DataSlot("n", n), DataSlot("offset", offset), DataSlot("partition_by", partitionBy), InputSlot("child", child));
      case SQLWindowFunc(func, args, partitionBy, orderBy, frame, outputName, child) =>
        WindowOf(DataSlot("func", func), ExprsSlot("args", args), DataSlot("partition_by", partitionBy),
            KeysSlot("order_by", orderBy), DataSlot("frame", frame), DataSlot("output_name", outputName),
            InputSlot("child", child));
    }
  }

  lemma SeriesContents(op: PlanOp)
    requires op.TimeRange? || op.TimeShift? || op.PromqlRelabel? || op.PromqlInfoEnrich?
    ensures Holds(op)
  {
    hide InputsOf, ExprsOf, NamesIn, Flattened, ItemExprs, KeyExprs, Present;
    match op {
      case TimeRange(range, kind, child) => Of3(DataSlot("range", range), DataSlot("kind", kind), InputSlot("child", child));
      case TimeShift(shift, child) => Of2(DataSlot("shift", shift), InputSlot("child", child));
      case PromqlRelabel(dst, value, child) => Of3(DataSlot("dst", dst), ExprSlot("value", value), InputSlot("child", child));
      case PromqlInfoEnrich(selector, child) => Of2(DataSlot("selector", selector), InputSlot("child", child));
    }
  }

  lemma SampleContents(op: PlanOp)
    requires op.PromqlSeriesSample? || op.PromqlSubquery?
    ensures Holds(op)
  {
    hide InputsOf, ExprsOf, NamesIn, Flattened, ItemExprs, KeyExprs, Present;
    match op {
      case PromqlSeriesSample(grouping, kind, child) =>
        Of3(DataSlot("by", grouping), DataSlot("kind", kind), InputSlot("child", child));
      case PromqlSubquery(range, resolution, child) =>
        Of3(DataSlot("range", range), DataSlot("resolution", resolution), InputSlot("child", child));
    }
  }

  lemma BuildContents(op: PlanOp)
    requires op.SummaryAgg? || op.SummaryTumblingWindowChain?
    ensures Holds(op)
  {
    hide InputsOf, ExprsOf, NamesIn, Flattened, ItemExprs, KeyExprs, Present;
    match op {
      case SummaryAgg(child, family, input, reduction, grouping, filter) =>
        BuildOf(InputSlot("child", child), DataSlot("family", family), DataSlot("input", input),
            DataSlot("reduction", reduction), DataSlot("grouping", grouping), OptionSlot("filter", filter));
      case SummaryTumblingWindowChain(child, family, input, reduction, grouping, filter, widthMs, count) =>
        ChainOf(InputSlot("child", child), DataSlot("family", family), DataSlot("input", input),
            DataSlot("reduction", reduction), DataSlot("grouping", grouping), OptionSlot("filter", filter),
            DataSlot("tumbling_window_width_ms", widthMs), DataSlot("tumbling_window_count", count));
    }
  }

  lemma ReadContents(op: PlanOp)
    requires op.SummaryEstimate? || op.FinalizeExactAccumulator? || op.MaintainPopulation? || op.EvaluatePopulation?
    ensures Holds(op)
  {
    hide InputsOf, ExprsOf, NamesIn, Flattened, ItemExprs, KeyExprs, Present;
    match op {
      case SummaryEstimate(summaryInput, query) => Of2(InputSlot("summary_input", summaryInput), DataSlot("query", query));
      case FinalizeExactAccumulator(child) => Of1(InputSlot("child", child));
      case MaintainPopulation(child, population) => Of2(InputSlot("child", child), DataSlot("population", population));
      case EvaluatePopulation(child, evaluation) => Of2(InputSlot("child", child), DataSlot("evaluation", evaluation));
    }
  }

  lemma StateContents(op: PlanOp)
    requires op.SummaryDelete? || op.Extension?
    ensures Holds(op)
  {
    hide InputsOf, ExprsOf, NamesIn, Flattened, ItemExprs, KeyExprs, Present;
    match op {
      case SummaryDelete(summaryInput, key) => Of2(InputSlot("summary_input", summaryInput), DataSlot("key", key));
      case Extension(child, name) => Of2(InputSlot("child", child), DataSlot("name", name));
    }
  }

  lemma StatePairContents(op: PlanOp)
    requires op.SummarySubtract? || op.SummaryJoin?
    ensures Holds(op)
  {
    hide InputsOf, ExprsOf, NamesIn, Flattened, ItemExprs, KeyExprs, Present;
    match op {
      case SummarySubtract(left, right) => PairOf(InputSlot("left", left), InputSlot("right", right));
      case SummaryJoin(outer, inner, key, family) =>
        PairFirst(InputSlot("outer", outer), InputSlot("inner", inner), DataSlot("key", key), DataSlot("family", family));
    }
  }

  lemma MergeContents(op: PlanOp)
    requires op.SummaryMerge?
    ensures Holds(op)
  {
    var first := InputsSlot("children", op.children);
    var newest, groups := Given("newest_tumbling_windows", op.newestTumblingWindows), Given("group_by", op.groupBy);
    First(first, newest + groups);
    OnlyData(newest + groups);
  }

  lemma {:induction false} OnlyData(slots: seq<Slot>)
    requires forall j :: 0 <= j < |slots| ==> slots[j].DataSlot?
    ensures InputsOf(slots) == [] && ExprsOf(slots) == [] && NamesIn(slots) == []
  {
    if slots != [] { OnlyData(slots[1..]); }
  }

  lemma AllHold(op: PlanOp)
    requires !op.PromqlVectorFromScalar?
    ensures Holds(op)
  {
    hide Holds;
    match op {
      case Scan(_, _, _) => SourceContents(op);
      case Values(_, _) => SourceContents(op);
      case Concat(_) => SourceContents(op);
      case Dedup(_, _) => SourceContents(op);
      case Filter(_, _) => RowContents(op);
      case Project(_, _, _) => RowContents(op);
      case Aggregate(_, _, _, _, _, _) => RowContents(op);
      case Join(_, _, _, _) => PairContents(op);
      case SetOp(_, _, _, _) => PairContents(op);
      case BinaryOp(_, _, _, _) => PairContents(op);
      case Sort(_, _, _) => OrderContents(op);
      case Limit(_, _, _, _) => OrderContents(op);
      case SQLWindowFunc(_, _, _, _, _, _, _) => OrderContents(op);
      case TimeRange(_, _, _) => SeriesContents(op);
      case TimeShift(_, _) => SeriesContents(op);
      case PromqlRelabel(_, _, _) => SeriesContents(op);
      case PromqlInfoEnrich(_, _) => SeriesContents(op);
      case PromqlSeriesSample(_, _, _) => SampleContents(op);
      case PromqlSubquery(_, _, _) => SampleContents(op);
      case SummaryAgg(_, _, _, _, _, _) => BuildContents(op);
      case SummaryTumblingWindowChain(_, _, _, _, _, _, _, _) => BuildContents(op);
      case SummaryEstimate(_, _) => ReadContents(op);
      case FinalizeExactAccumulator(_) => ReadContents(op);
      case MaintainPopulation(_, _) => ReadContents(op);
      case EvaluatePopulation(_, _) => ReadContents(op);
      case SummarySubtract(_, _) => StatePairContents(op);
      case SummaryDelete(_, _) => StateContents(op);
      case SummaryJoin(_, _, _, _) => StatePairContents(op);
      case Extension(_, _) => StateContents(op);
      case SummaryMerge(_, _, _) => MergeContents(op);
    }
  }

  lemma PairedNames()
    ensures |CHILD_FIELDS| == 9
    ensures CHILD_FIELDS[2] == "left" && CHILD_FIELDS[3] == "right" && CHILD_FIELDS[4] == "lhs" && CHILD_FIELDS[5] == "rhs"
    ensures CHILD_FIELDS[7] == "outer" && CHILD_FIELDS[8] == "inner"
  {
  }

  lemma InputsReadBack(slots: seq<Slot>)
    requires Named(slots) && InViewerOrder(NamesIn(slots))
    ensures ChildFieldIds(Fields(slots), CHILD_FIELDS) == InputsOf(slots)
  {
    PairedNames();
    hide Fields, ChildFieldIds, CHILD_FIELDS, NamesIn, InputsOf;
    var names := NamesIn(slots);
    if |names| == 0 {
      NoNameReadBack(slots);
    } else if |names| == 1 {
      OneNameReadBack(slots);
    } else if names == ["left", "right"] {
      TwoNamesReadBack(slots, 2);
    } else if names == ["lhs", "rhs"] {
      TwoNamesReadBack(slots, 4);
    } else {
      TwoNamesReadBack(slots, 7);
    }
  }

  lemma NoNameReadBack(slots: seq<Slot>)
    requires Named(slots) && NamesIn(slots) == []
    ensures ChildFieldIds(Fields(slots), CHILD_FIELDS) == [] && InputsOf(slots) == []
  {
    NoneIn(slots);
    hide Fields, ChildFieldIds, CHILD_FIELDS, NamesIn, InputsOf;
    NoInputs(slots, CHILD_FIELDS);
  }

  lemma TaggedParts(layer: string, kind: string, fields: seq<Field>)
    ensures Parts(Tagged(layer, Tagged(kind, Obj(fields)))) == (kind, fields) && BodyIsObject(Tagged(layer, Tagged(kind, Obj(fields))))
  {
  }

  lemma SerializedSlots(op: PlanOp)
    requires !op.PromqlVectorFromScalar?
    ensures Serialized(op) == Tagged(if IsSummary(op) then "ASAP" else "NonASAP", Tagged(Kind(op), Obj(Fields(Slots(op)))))
  {
    hide Kind, IsSummary, Slots, Fields;
  }

  lemma BodyReads(layer: string, kind: string, fields: seq<Field>)
    ensures References(Tagged(layer, Tagged(kind, Obj(fields)))) == ChildFieldIds(fields, CHILD_FIELDS) + OtherRefs(fields)
  {
    hide ChildFieldIds, OtherRefs, CHILD_FIELDS;
    TaggedParts(layer, kind, fields);
  }

  lemma SlotsReadBack(op: PlanOp)
    requires !op.PromqlVectorFromScalar?
    ensures ChildFieldIds(Fields(Slots(op)), CHILD_FIELDS) + OtherRefs(Fields(Slots(op))) == Inputs(op) + ReadsOf(Exprs(op))
  {
    AllHold(op);
    AllNamed(op);
    hide Slots, Inputs, Exprs, CHILD_FIELDS;
    OthersReadBack(Slots(op));
    InputsReadBack(Slots(op));
  }

  lemma SlotsRead(op: PlanOp)
    requires !op.PromqlVectorFromScalar?
    ensures References(Serialized(op)) == Inputs(op) + ReadsOf(Exprs(op))
  {
    hide *;
    SlotsReadBack(op);
    SerializedSlots(op);
    BodyReads(if IsSummary(op) then "ASAP" else "NonASAP", Kind(op), Fields(Slots(op)));
  }

  lemma VectorRead(op: PlanOp)
    requires op.PromqlVectorFromScalar?
    ensures References(Serialized(op)) == Inputs(op) + ReadsOf(Exprs(op))
  {
    VectorReads("NonASAP", Kind(op), op.scalar);
    OneExpr(op.scalar);
    hide Written, References, Reads, ReadsOf, Kind;
    assert Serialized(op) == Tagged("NonASAP", Tagged(Kind(op), Written(op.scalar)));
    assert Exprs(op) == [op.scalar] && Inputs(op) == [];
  }

  /** The viewer reads an operator's inputs in order, then what its scalar expressions read. */
  lemma ReferencesAreReads(op: PlanOp)
    ensures References(Serialized(op)) == Inputs(op) + ReadsOf(Exprs(op))
  {
    hide *;
    if op.PromqlVectorFromScalar? {
      VectorRead(op);
    } else {
      SlotsRead(op);
    }
  }

  /** A body that is a scalar expression is read as one. */
  lemma VectorReads(layer: string, kind: string, e: Scalar)
    ensures References(Tagged(layer, Tagged(kind, Written(e)))) == Reads(e)
  {
    ReadBack(e);
    if e.CurrentTimestamp? || e.EvalTimestamp? {
      TextReads(layer, kind, Written(e));
    } else {
      TagIsPlain(e);
      var field := Written(e).fields[0];
      assert Written(e) == Tagged(field.name, field.value);
      hide Written, Reads, ScalarRefs, CHILD_FIELDS;
      TaggedParts(layer, kind, [field]);
      TaggedRefs(field.name, field.value);
      AloneReads(field);
    }
  }

  lemma TextReads(layer: string, kind: string, v: Json)
    requires v.Str?
    ensures References(Tagged(layer, Tagged(kind, v))) == [] && !BodyIsObject(Tagged(layer, Tagged(kind, v)))
  {
    var fields := [Field("value", v)];
    assert Parts(Tagged(layer, Tagged(kind, v))) == (kind, fields);
    PromqlNames();
    AloneReads(fields[0]);
  }

  lemma AloneReads(field: Field)
    requires field.name !in CHILD_FIELDS
    ensures LogicalChildren([field]) == FieldRefs(field)
  {
    hide FieldRefs;
    assert [field][1..] == [];
    NoFieldNamed(field, CHILD_FIELDS);
    hide CHILD_FIELDS;
    assert OtherRefs([field]) == FieldRefs(field) + OtherRefs([field][1..]);
  }

  lemma {:induction false} NoFieldNamed(field: Field, names: seq<string>)
    requires field.name !in names
    ensures ChildFieldIds([field], names) == []
  {
    if names != [] {
      NoFieldNamed(field, names[1..]);
      assert [field][1..] == [];
      assert Lookup([field], names[0]) == Null;
    }
  }

  lemma TagIsPlain(e: Scalar)
    requires !e.CurrentTimestamp? && !e.EvalTimestamp?
    ensures Written(e).Obj? && |Written(e).fields| == 1 && Written(e).fields[0].name !in CHILD_FIELDS
  {
  }

  // ------------------------------------------------------- and renames it

  lemma {:induction false} MapSlotsAt(slots: seq<Slot>, g: int -> int)
    ensures |MapSlots(slots, g)| == |slots|
    ensures forall i :: 0 <= i < |slots| ==> MapSlots(slots, g)[i] == MapSlot(slots[i], g)
  {
    hide MapSlot;
    if slots != [] { MapSlotsAt(slots[1..], g); }
  }

  lemma AggregateMapped(op: PlanOp, g: int -> int)
    requires op.Aggregate? || op.Project? || op.Values?
    ensures Slots(MapChildren(op, g)) == MapSlots(Slots(op), g)
  {
    hide MapSlots, MapRows, MapScalars, MapScalar, MapItemExprs, MapOptions, MapOption, MapIds;
    MapSlotsAt(Slots(op), g);
  }

  lemma RelationalMapped(op: PlanOp, g: int -> int)
    requires IsRelational(op) && !op.Aggregate? && !op.Project? && !op.Values?
    ensures Slots(MapChildren(op, g)) == MapSlots(Slots(op), g)
  {
    hide MapSlots, MapRows, MapScalars, MapScalar, MapItemExprs, MapOptions, MapOption, MapIds;
    MapSlotsAt(Slots(op), g);
  }

  lemma OrderedMapped(op: PlanOp, g: int -> int)
    requires !op.PromqlVectorFromScalar? && !IsRelational(op) && !IsSummary(op)
    ensures Slots(MapChildren(op, g)) == MapSlots(Slots(op), g)
  {
    hide MapSlots, MapScalars, MapScalar, MapKeys;
    MapSlotsAt(Slots(op), g);
  }

  lemma WindowedMapped(op: PlanOp, g: int -> int)
    requires op.SummaryMerge? || op.SummaryTumblingWindowChain? || op.SummaryAgg?
    ensures Slots(MapChildren(op, g)) == MapSlots(Slots(op), g)
  {
    hide MapSlots, MapOption, MapIds;
    MapSlotsAt(Slots(op), g);
  }

  lemma SummaryMapped(op: PlanOp, g: int -> int)
    requires IsSummary(op) && !op.SummaryMerge? && !op.SummaryTumblingWindowChain? && !op.SummaryAgg?
    ensures Slots(MapChildren(op, g)) == MapSlots(Slots(op), g)
  {
    hide MapSlots, MapOption, MapIds;
    MapSlotsAt(Slots(op), g);
  }

  lemma SameKind(op: PlanOp, g: int -> int)
    ensures Kind(MapChildren(op, g)) == Kind(op) && IsSummary(MapChildren(op, g)) == IsSummary(op)
  {
    hide Kind, MapChildren;
    if IsMerging(op) {
      SameMergingKind(op, g);
    } else if IsSummary(op) {
      SameSummaryKind(op, g);
    } else if IsRelational(op) {
      SameRelationalKind(op, g);
    } else {
      SameOtherKind(op, g);
    }
  }

  lemma SameMergingKind(op: PlanOp, g: int -> int)
    requires IsMerging(op)
    ensures Kind(MapChildren(op, g)) == Kind(op) && IsSummary(op) && IsSummary(MapChildren(op, g))
  {
    hide MapIds;
  }

  lemma SameSummaryKind(op: PlanOp, g: int -> int)
    requires IsSummary(op) && !IsMerging(op)
    ensures Kind(MapChildren(op, g)) == Kind(op) && IsSummary(MapChildren(op, g))
  {
    hide MapScalar, MapOption, MapIds;
  }

  lemma SameRelationalKind(op: PlanOp, g: int -> int)
    requires IsRelational(op)
    ensures Kind(MapChildren(op, g)) == Kind(op) && !IsSummary(MapChildren(op, g))
  {
    hide MapRows, MapScalars, MapScalar, MapItemExprs, MapOptions, MapOption, MapIds;
  }

  lemma SameOtherKind(op: PlanOp, g: int -> int)
    requires !IsSummary(op) && !IsRelational(op)
    ensures Kind(MapChildren(op, g)) == Kind(op) && !IsSummary(MapChildren(op, g))
  {
    hide MapScalars, MapScalar, MapKeys;
  }

  lemma SameForm(op: PlanOp, g: int -> int)
    ensures MapChildren(op, g).PromqlVectorFromScalar? == op.PromqlVectorFromScalar?
    ensures op.PromqlVectorFromScalar? ==> MapChildren(op, g).scalar == MapScalar(op.scalar, g)
  {
    hide MapRows, MapScalars, MapScalar, MapItemExprs, MapOptions, MapOption, MapIds, MapKeys;
  }

  /** The viewer's renaming of a written operator writes the operator the planner's renaming gives. */
  lemma OperatorRenamed(op: PlanOp, g: int -> int)
    ensures MapLogicalChildren(Serialized(op), Total(g)) == Serialized(MapChildren(op, g))
  {
    var layer := if IsSummary(op) then "ASAP" else "NonASAP";
    SameKind(op, g);
    SameForm(op, g);
    if op.PromqlVectorFromScalar? {
      VectorRenamed(layer, Kind(op), op.scalar, g);
    } else {
      AllNamed(op);
      SlotsMapped(op, g);
      hide Slots, Fields, MapSlots, MapChildren, IsSummary, Kind, Total, MapBody, CHILD_FIELDS;
      BodyRenamed(Slots(op), g);
      TaggedRenamed(layer, Kind(op), Fields(Slots(op)), Total(g));
    }
  }

  lemma SlotsMapped(op: PlanOp, g: int -> int)
    requires !op.PromqlVectorFromScalar?
    ensures !MapChildren(op, g).PromqlVectorFromScalar? && Slots(MapChildren(op, g)) == MapSlots(Slots(op), g)
  {
    SameForm(op, g);
    hide Slots, MapSlots, MapChildren;
    if op.SummaryMerge? || op.SummaryTumblingWindowChain? || op.SummaryAgg? {
      WindowedMapped(op, g);
    } else if IsSummary(op) {
      SummaryMapped(op, g);
    } else if op.Aggregate? || op.Project? || op.Values? {
      AggregateMapped(op, g);
    } else if IsRelational(op) {
      RelationalMapped(op, g);
    } else {
      OrderedMapped(op, g);
    }
  }

  lemma TaggedRenamed(layer: string, kind: string, fields: seq<Field>, f: Renaming)
    ensures MapLogicalChildren(Tagged(layer, Tagged(kind, Obj(fields))), f) == Tagged(layer, Tagged(kind, Obj(MapBody(fields, f))))
  {
    hide MapBody;
    TaggedParts(layer, kind, fields);
  }

  lemma VectorRenamed(layer: string, kind: string, e: Scalar, g: int -> int)
    ensures MapLogicalChildren(Tagged(layer, Tagged(kind, Written(e))), Total(g)) == Tagged(layer, Tagged(kind, Written(MapScalar(e, g))))
  {
    ScalarWritten(e, g);
    if e.CurrentTimestamp? || e.EvalTimestamp? {
      TextReads(layer, kind, Written(e));
    } else {
      TagIsPlain(e);
      var field := Written(e).fields[0];
      assert Written(e) == Tagged(field.name, field.value);
      hide Written, MapScalar, MapScalarRefs, CHILD_FIELDS, Total;
      TaggedRenamed(layer, kind, [field], Total(g));
      MappedTag(field.name, field.value, Total(g));
      AloneMapped(field, Total(g));
    }
  }

  lemma AloneMapped(field: Field, f: Renaming)
    requires field.name !in CHILD_FIELDS
    ensures MapBody([field], f) == [MapField(field, f)]
  {
    hide MapField;
    assert [field][1..] == [];
  }

  // -------------------------------------------- beside the planner's lists

  /** The viewer's references are the planner's children; in its order, when they differ, exactly unless an IN subquery tests an expression that reads some. */
  lemma ReferencesAreChildren(op: PlanOp)
    ensures Reordered(References(Serialized(op)), Children(op), AllPlainTests(Exprs(op)))
  {
    ReferencesAreReads(op);
    SameInList(Exprs(op));
    hide Inputs, Exprs, ReadsOf, OperatorRefsOf, References, Serialized, AllPlainTests, Reordered;
    OwnOrder(Inputs(op));
    ReorderedParts(Inputs(op), ReadsOf(Exprs(op)), Inputs(op), OperatorRefsOf(Exprs(op)), true, AllPlainTests(Exprs(op)));
  }

  lemma OwnOrder(ids: seq<int>)
    ensures Reordered(ids, ids, true)
  {
  }

  predicate DistinctSlots(slots: seq<Slot>) {
    forall i, j :: 0 <= i < j < |slots| ==> slots[i].name != slots[j].name
  }

  lemma SourceDistinct(op: PlanOp)
    requires op.Scan? || op.Values? || op.Filter? || op.Project? || op.Concat? || op.Dedup?
    ensures DistinctSlots(Slots(op))
  {
  }

  lemma PairDistinct(op: PlanOp)
    requires op.Join? || op.SetOp? || op.BinaryOp?
    ensures DistinctSlots(Slots(op))
  {
  }

  lemma AggregateDistinct(op: PlanOp)
    requires op.Aggregate?
    ensures DistinctSlots(Slots(op))
  {
  }

  lemma OrderDistinct(op: PlanOp)
    requires op.Sort? || op.Limit?
    ensures DistinctSlots(Slots(op))
  {
  }

  lemma WindowDistinct(op: PlanOp)
    requires op.SQLWindowFunc?
    ensures DistinctSlots(Slots(op))
  {
  }

  lemma SeriesDistinct(op: PlanOp)
    requires op.TimeRange? || op.TimeShift? || op.PromqlRelabel? || op.PromqlInfoEnrich? || op.PromqlSeriesSample? || op.PromqlSubquery?
    ensures DistinctSlots(Slots(op))
  {
  }

  lemma BuildDistinct(op: PlanOp)
    requires op.SummaryAgg?
    ensures DistinctSlots(Slots(op))
  {
  }

  lemma ChainDistinct(op: PlanOp)
    requires op.SummaryTumblingWindowChain?
    ensures DistinctSlots(Slots(op))
  {
  }

  lemma MergingDistinct(op: PlanOp)
    requires IsMerging(op)
    ensures DistinctSlots(Slots(op))
  {
  }

  lemma StateDistinct(op: PlanOp)
    requires IsSummary(op) && !op.SummaryAgg? && !op.SummaryTumblingWindowChain? && !IsMerging(op)
    ensures DistinctSlots(Slots(op))
  {
  }

  lemma AllDistinct(op: PlanOp)
    requires !op.PromqlVectorFromScalar?
    ensures DistinctSlots(Slots(op))
  {
    hide DistinctSlots, Slots;
    if op.SummaryAgg? {
      BuildDistinct(op);
    } else if op.SummaryTumblingWindowChain? {
      ChainDistinct(op);
    } else if IsMerging(op) {
      MergingDistinct(op);
    } else if IsSummary(op) {
      StateDistinct(op);
    } else if op.Join? || op.SetOp? || op.BinaryOp? {
      PairDistinct(op);
    } else if op.Aggregate? {
      AggregateDistinct(op);
    } else if op.Sort? || op.Limit? {
      OrderDistinct(op);
    } else if op.SQLWindowFunc? {
      WindowDistinct(op);
    } else if IsRelational(op) {
      SourceDistinct(op);
    } else {
      SeriesDistinct(op);
    }
  }

  lemma {:induction false} FieldNames(slots: seq<Slot>)
    ensures |Fields(slots)| == |slots| && forall i :: 0 <= i < |slots| ==> Fields(slots)[i].name == slots[i].name
  {
    if slots != [] { FieldNames(slots[1..]); }
  }

  /** A written operator has one field of each name, or nothing to rename. */
  lemma SerializedIsRenameable(op: PlanOp)
    ensures if BodyIsObject(Serialized(op)) then DistinctNames(Parts(Serialized(op)).1) else References(Serialized(op)) == []
  {
    var layer := if IsSummary(op) then "ASAP" else "NonASAP";
    if op.PromqlVectorFromScalar? {
      VectorIsRenameable(layer, Kind(op), op.scalar);
    } else {
      AllDistinct(op);
      FieldNames(Slots(op));
      hide Slots, Fields, Kind, IsSummary, References;
      TaggedParts(layer, Kind(op), Fields(Slots(op)));
    }
  }

  lemma VectorIsRenameable(layer: string, kind: string, e: Scalar)
    ensures var op := Tagged(layer, Tagged(kind, Written(e)));
      if BodyIsObject(op) then DistinctNames(Parts(op).1) else References(op) == []
  {
    if e.CurrentTimestamp? || e.EvalTimestamp? {
      TextReads(layer, kind, Written(e));
    } else {
      TagIsPlain(e);
      var field := Written(e).fields[0];
      assert Written(e) == Tagged(field.name, field.value);
      hide Written, CHILD_FIELDS, References;
      TaggedParts(layer, kind, [field]);
    }
  }
}
