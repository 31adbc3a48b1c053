/**
 The node references inside a serialized logical operator, and rewriting them
 (tools/dag-viewer/stages.js:118-197). An operator is a JSON value; a reference
 with nothing to refer to becomes an absent value.
 */
module ViewerOperators {
  import opened Results

  /** A JSON value; an absent one is `Null`. */
  datatype Json = Null | Bool(b: bool) | Num(n: int) | Str(s: string) | Arr(items: seq<Json>) | Obj(fields: seq<Field>)

  datatype Field = Field(name: string, value: Json)

  const CHILD_FIELDS: seq<string> := ["child", "children", "left", "right", "lhs", "rhs", "summary_input", "outer", "inner"]

  const SCALAR_REF_FIELDS: seq<string> := ["PromqlScalarFromVector", "ScalarSubquery", "subquery"]

  type Renaming = int -> Option<int>

  function Renamed(id: int, f: Renaming): Json {
    var to := f(id);
    if to.Some? then Num(to.value) else Null
  }

  /** The renamed ids in order, those without a name dropped. */
  function RenamedAll(ids: seq<int>, f: Renaming): seq<int> {
    if ids == [] then []
    else
      var to := f(ids[0]);
      (if to.Some? then [to.value] else []) + RenamedAll(ids[1..], f)
  }

  lemma {:induction false} RenamedConcat(a: seq<int>, b: seq<int>, f: Renaming)
    ensures RenamedAll(a + b, f) == RenamedAll(a, f) + RenamedAll(b, f)
  {
    hide RenamedAll;
    NothingRenamed(f);
    if a == [] {
      assert a + b == b;
    } else {
      RenamedStep(a, f);
      RenamedStep(a + b, f);
      assert (a + b)[1..] == a[1..] + b;
      RenamedConcat(a[1..], b, f);
    }
  }

  lemma NothingRenamed(f: Renaming)
    ensures RenamedAll([], f) == []
  {
  }

  lemma RenamedStep(ids: seq<int>, f: Renaming)
    requires ids != []
    ensures RenamedAll(ids, f) == (if f(ids[0]).Some? then [f(ids[0]).value] else []) + RenamedAll(ids[1..], f)
  {
  }

  // ------------------------------------------------- scalar references

  /** A field's own reference, or those inside its value. */
  function FieldRefs(field: Field): seq<int>
    decreases field, 1
  {
    if field.name in SCALAR_REF_FIELDS && field.value.Num? then [field.value.n] else ScalarRefs(field.value)
  }

  function ScalarRefs(v: Json): seq<int>
    decreases v, 0
  {
    match v
    case Arr(items) => ItemsRefs(items)
    case Obj(fields) => FieldsRefs(fields)
    case _ => []
  }

  function ItemsRefs(items: seq<Json>): seq<int>
    decreases items, 0
  {
    if items == [] then [] else ScalarRefs(items[0]) + ItemsRefs(items[1..])
  }

  function FieldsRefs(fields: seq<Field>): seq<int>
    decreases fields, 0
  {
    if fields == [] then [] else FieldRefs(fields[0]) + FieldsRefs(fields[1..])
  }

  function MapField(field: Field, f: Renaming): Field
    decreases field, 1
  {
    Field(field.name,
          if field.name in SCALAR_REF_FIELDS && field.value.Num? then Renamed(field.value.n, f) else MapScalarRefs(field.value, f))
  }

  function MapScalarRefs(v: Json, f: Renaming): Json
    decreases v, 0
  {
    match v
    case Arr(items) => Arr(MapItems(items, f))
    case Obj(fields) => Obj(MapFields(fields, f))
    case _ => v
  }

  function MapItems(items: seq<Json>, f: Renaming): seq<Json>
    decreases items, 0
  {
    if items == [] then [] else [MapScalarRefs(items[0], f)] + MapItems(items[1..], f)
  }

  function MapFields(fields: seq<Field>, f: Renaming): seq<Field>
    decreases fields, 0
  {
    if fields == [] then [] else [MapField(fields[0], f)] + MapFields(fields[1..], f)
  }

  /** The recursive walk that pushes every scalar reference. */
  method CollectScalarRefs(v: Json, before: seq<int>) returns (ids: seq<int>)
    ensures ids == before + ScalarRefs(v)
    decreases v, 0
  {
    ids := before;
    match v {
      case Arr(items) => ids := CollectItems(items, ids);
      case Obj(fields) => ids := CollectFields(fields, ids);
      case _ =>
    }
  }

  method CollectItems(items: seq<Json>, before: seq<int>) returns (ids: seq<int>)
    ensures ids == before + ItemsRefs(items)
    decreases items, 0
  {
    ids := before;
    if items != [] {
      ids := CollectScalarRefs(items[0], ids);
      ids := CollectItems(items[1..], ids);
    }
  }

  method CollectFields(fields: seq<Field>, before: seq<int>) returns (ids: seq<int>)
    ensures ids == before + FieldsRefs(fields)
    decreases fields, 0
  {
    ids := before;
    if fields != [] {
      var field := fields[0];
      if field.name in SCALAR_REF_FIELDS && field.value.Num? {
        ids := ids + [field.value.n];
      } else {
        assert field.value < field;
        ids := CollectScalarRefs(field.value, ids);
      }
      ids := CollectFields(fields[1..], ids);
    }
  }

  lemma {:induction false} ScalarRefsMapped(v: Json, f: Renaming)
    ensures ScalarRefs(MapScalarRefs(v, f)) == RenamedAll(ScalarRefs(v), f)
    decreases v, 0
  {
    match v {
      case Arr(items) => ItemsMapped(items, f);
      case Obj(fields) => FieldsMapped(fields, f);
      case _ =>
    }
  }

  lemma {:induction false} ItemsMapped(items: seq<Json>, f: Renaming)
    ensures ItemsRefs(MapItems(items, f)) == RenamedAll(ItemsRefs(items), f)
    decreases items, 0
  {
    if items != [] {
      ScalarRefsMapped(items[0], f);
      ItemsMapped(items[1..], f);
      RenamedConcat(ScalarRefs(items[0]), ItemsRefs(items[1..]), f);
      assert MapItems(items, f)[1..] == MapItems(items[1..], f);
    }
  }

  lemma {:induction false} FieldsMapped(fields: seq<Field>, f: Renaming)
    ensures FieldsRefs(MapFields(fields, f)) == RenamedAll(FieldsRefs(fields), f)
    decreases fields, 0
  {
    if fields != [] {
      FieldMapped(fields[0], f);
      FieldsMapped(fields[1..], f);
      RenamedConcat(FieldRefs(fields[0]), FieldsRefs(fields[1..]), f);
      assert MapFields(fields, f)[1..] == MapFields(fields[1..], f);
    }
  }

  lemma {:induction false} FieldMapped(field: Field, f: Renaming)
    ensures FieldRefs(MapField(field, f)) == RenamedAll(FieldRefs(field), f)
    decreases field, 1
  {
    if field.name in SCALAR_REF_FIELDS && field.value.Num? {
      assert [field.value.n][1..] == [];
    } else {
      ScalarRefsMapped(field.value, f);
      NumStays(field.value, f);
    }
  }

  lemma NumStays(v: Json, f: Renaming)
    ensures MapScalarRefs(v, f).Num? <==> v.Num?
  {
  }

  // ------------------------------------------------------ the operator

  function FirstEntry(v: Json): Option<Field> {
    match v
    case Obj(fields) => if fields == [] then None else Some(fields[0])
    case Arr(items) => if items == [] then None else Some(Field("0", items[0]))
    case _ => None
  }

  predicate IsComposite(v: Json) {
    v.Obj? || v.Arr?
  }

  /** The operator's kind and the fields of its body. */
  function Parts(op: Json): (string, seq<Field>) {
    var outer := FirstEntry(op);
    if outer.None? then ("unknown", [])
    else if outer.value.value.Str? then (outer.value.value.s, [])
    else if !IsComposite(outer.value.value) then ("unknown", [])
    else
      var inner := FirstEntry(outer.value.value);
      if inner.None? then ("unknown", [])
      else if inner.value.value.Obj? then (inner.value.name, inner.value.value.fields)
      else (inner.value.name, [Field("value", inner.value.value)])
  }

  function Lookup(fields: seq<Field>, name: string): Json {
    if fields == [] then Null else if fields[0].name == name then fields[0].value else Lookup(fields[1..], name)
  }

  function Numbers(items: seq<Json>): seq<int> {
    if items == [] then [] else (if items[0].Num? then [items[0].n] else []) + Numbers(items[1..])
  }

  /** A child field holds an id or a list of ids. */
  function ChildIds(v: Json): seq<int> {
    match v
    case Arr(items) => Numbers(items)
    case Num(n) => [n]
    case _ => []
  }

  function ChildFieldIds(fields: seq<Field>, names: seq<string>): seq<int> {
    if names == [] then [] else ChildIds(Lookup(fields, names[0])) + ChildFieldIds(fields, names[1..])
  }

  function OtherRefs(fields: seq<Field>): seq<int> {
    if fields == [] then []
    else (if fields[0].name in CHILD_FIELDS then [] else FieldRefs(fields[0])) + OtherRefs(fields[1..])
  }

  /** The ids an operator's body reads: its inputs by field name, then its scalar references. */
  function LogicalChildren(fields: seq<Field>): seq<int> {
    ChildFieldIds(fields, CHILD_FIELDS) + OtherRefs(fields)
  }

  method CollectLogicalChildren(fields: seq<Field>) returns (ids: seq<int>)
    ensures ids == LogicalChildren(fields)
  {
    hide ChildFieldIds, OtherRefs, FieldsRefs, FieldRefs, CHILD_FIELDS;
    ids := [];
    for i := 0 to |CHILD_FIELDS|
      invariant ids + ChildFieldIds(fields, CHILD_FIELDS[i..]) == ChildFieldIds(fields, CHILD_FIELDS)
    {
      NextChildField(fields, CHILD_FIELDS, i);
      ids := ids + ChildIds(Lookup(fields, CHILD_FIELDS[i]));
    }
    NoFieldsLeft(fields, CHILD_FIELDS);
    assert ids + [] == ids;
    ghost var inputs := ids;
    for i := 0 to |fields|
      invariant ids + OtherRefs(fields[i..]) == inputs + OtherRefs(fields)
    {
      NextField(fields, i);
      if fields[i].name !in CHILD_FIELDS {
        OneField(fields[i]);
        ids := CollectFields([fields[i]], ids);
      }
    }
    assert ids + [] == ids;
  }

  lemma NextChildField(fields: seq<Field>, names: seq<string>, i: nat)
    requires i < |names|
    ensures names[0..] == names
    ensures ChildFieldIds(fields, names[i..]) == ChildIds(Lookup(fields, names[i])) + ChildFieldIds(fields, names[i + 1..])
  {
    assert names[i..][1..] == names[i + 1..];
  }

  lemma NoFieldsLeft(fields: seq<Field>, names: seq<string>)
    ensures ChildFieldIds(fields, names[|names|..]) == [] && OtherRefs(fields[|fields|..]) == []
        && fields[0..] == fields
  {
    hide ChildIds, Lookup, FieldRefs;
    assert names[|names|..] == [] && fields[|fields|..] == [];
  }

  lemma NextField(fields: seq<Field>, i: nat)
    requires i < |fields|
    ensures OtherRefs(fields[i..])
         == (if fields[i].name in CHILD_FIELDS then [] else FieldRefs(fields[i])) + OtherRefs(fields[i + 1..])
  {
    assert fields[i..][1..] == fields[i + 1..];
  }

  lemma OneField(field: Field)
    ensures FieldsRefs([field]) == FieldRefs(field)
  {
    assert [field][1..] == [];
  }

  function RenamedItem(v: Json, f: Renaming): Json {
    if v.Num? then Renamed(v.n, f) else v
  }

  function RenamedItems(items: seq<Json>, f: Renaming): seq<Json> {
    if items == [] then [] else [RenamedItem(items[0], f)] + RenamedItems(items[1..], f)
  }

  function MapChildField(v: Json, f: Renaming): Json {
    match v
    case Arr(items) => Arr(RenamedItems(items, f))
    case _ => RenamedItem(v, f)
  }

  function MapBodyField(field: Field, f: Renaming): Field {
    if field.name in CHILD_FIELDS then Field(field.name, MapChildField(field.value, f)) else MapField(field, f)
  }

  function MapBody(fields: seq<Field>, f: Renaming): seq<Field> {
    if fields == [] then [] else [MapBodyField(fields[0], f)] + MapBody(fields[1..], f)
  }

  /** The operator has a body with fields; any other is left as it is. */
  predicate BodyIsObject(op: Json) {
    var outer := FirstEntry(op);
    outer.Some? && IsComposite(outer.value.value)
    && FirstEntry(outer.value.value).Some? && FirstEntry(outer.value.value).value.value.Obj?
  }

  function MapLogicalChildren(op: Json, f: Renaming): Json {
    if !BodyIsObject(op) then op
    else
      var outer := FirstEntry(op).value;
      var inner := FirstEntry(outer.value).value;
      Obj([Field(outer.name, Obj([Field(inner.name, Obj(MapBody(inner.value.fields, f)))]))])
  }

  function References(op: Json): seq<int> {
    LogicalChildren(Parts(op).1)
  }

  lemma {:induction false} LookupMapped(fields: seq<Field>, name: string, f: Renaming)
    requires name in CHILD_FIELDS
    ensures Lookup(MapBody(fields, f), name) == MapChildField(Lookup(fields, name), f)
  {
    if fields != [] {
      LookupMapped(fields[1..], name, f);
      assert MapBody(fields, f)[1..] == MapBody(fields[1..], f);
    }
  }

  lemma {:induction false} NumbersRenamed(items: seq<Json>, f: Renaming)
    ensures Numbers(RenamedItems(items, f)) == RenamedAll(Numbers(items), f)
  {
    if items != [] {
      NumbersRenamed(items[1..], f);
      assert RenamedItems(items, f)[1..] == RenamedItems(items[1..], f);
      var head := if items[0].Num? then [items[0].n] else [];
      RenamedConcat(head, Numbers(items[1..]), f);
      if items[0].Num? { assert head[1..] == []; }
    }
  }

  lemma ChildIdsMapped(v: Json, f: Renaming)
    ensures ChildIds(MapChildField(v, f)) == RenamedAll(ChildIds(v), f)
  {
    match v {
      case Arr(items) => NumbersRenamed(items, f);
      case Num(n) => assert [n][1..] == [];
      case _ =>
    }
  }

  lemma {:induction false} ChildFieldsMapped(fields: seq<Field>, names: seq<string>, f: Renaming)
    requires forall i :: 0 <= i < |names| ==> names[i] in CHILD_FIELDS
    ensures ChildFieldIds(MapBody(fields, f), names) == RenamedAll(ChildFieldIds(fields, names), f)
  {
    if names != [] {
      LookupMapped(fields, names[0], f);
      ChildIdsMapped(Lookup(fields, names[0]), f);
      ChildFieldsMapped(fields, names[1..], f);
      RenamedConcat(ChildIds(Lookup(fields, names[0])), ChildFieldIds(fields, names[1..]), f);
    }
  }

  lemma {:induction false} OtherRefsMapped(fields: seq<Field>, f: Renaming)
    ensures OtherRefs(MapBody(fields, f)) == RenamedAll(OtherRefs(fields), f)
  {
    if fields != [] {
      OtherRefsMapped(fields[1..], f);
      assert MapBody(fields, f)[1..] == MapBody(fields[1..], f);
      FieldMapped(fields[0], f);
      assert MapBody(fields, f)[0] == MapBodyField(fields[0], f);
      hide CHILD_FIELDS, FieldRefs, MapField;
      var head := if fields[0].name in CHILD_FIELDS then [] else FieldRefs(fields[0]);
      RenamedConcat(head, OtherRefs(fields[1..]), f);
    }
  }

  lemma BodyMapped(fields: seq<Field>, f: Renaming)
    ensures LogicalChildren(MapBody(fields, f)) == RenamedAll(LogicalChildren(fields), f)
  {
    hide ChildFieldIds, OtherRefs, MapBody;
    ChildFieldsMapped(fields, CHILD_FIELDS, f);
    OtherRefsMapped(fields, f);
    RenamedConcat(ChildFieldIds(fields, CHILD_FIELDS), OtherRefs(fields), f);
  }

  lemma MappedParts(op: Json, f: Renaming)
    requires BodyIsObject(op)
    ensures BodyIsObject(MapLogicalChildren(op, f))
    ensures Parts(MapLogicalChildren(op, f)) == (Parts(op).0, MapBody(Parts(op).1, f))
  {
    hide MapBody;
  }

  /** The mapped operator reads the renamed ids, exactly when its body has fields or the renaming moves none of its ids. */
  lemma ReferencesMapped(op: Json, f: Renaming)
    ensures References(MapLogicalChildren(op, f)) == RenamedAll(References(op), f)
       <==> BodyIsObject(op) || RenamedAll(References(op), f) == References(op)
  {
    if BodyIsObject(op) {
      MappedParts(op, f);
      BodyMapped(Parts(op).1, f);
    }
  }

  // -------------------------------------------------- renaming in steps

  /** One renaming after another. */
  function Then(f: Renaming, g: Renaming): Renaming {
    (id: int) => if f(id).Some? then g(f(id).value) else None
  }

  /** Renamings that agree on some ids. */
  ghost predicate Agree(f: Renaming, g: Renaming, ids: seq<int>) {
    forall k :: 0 <= k < |ids| ==> f(ids[k]) == g(ids[k])
  }

  lemma AgreeParts(f: Renaming, g: Renaming, a: seq<int>, b: seq<int>)
    ensures Agree(f, g, a + b) <==> Agree(f, g, a) && Agree(f, g, b)
  {
    if Agree(f, g, a + b) {
      assert forall k :: 0 <= k < |a| ==> (a + b)[k] == a[k];
      assert forall k :: 0 <= k < |b| ==> (a + b)[|a| + k] == b[k];
    }
  }

  lemma {:induction false} ScalarMapTwice(v: Json, f: Renaming, g: Renaming, h: Renaming)
    requires Agree(Then(f, g), h, ScalarRefs(v))
    ensures MapScalarRefs(MapScalarRefs(v, f), g) == MapScalarRefs(v, h)
    decreases v, 0
  {
    hide Agree;
    match v {
      case Arr(items) => ItemsMapTwice(items, f, g, h);
      case Obj(fields) => FieldsMapTwice(fields, f, g, h);
      case _ =>
    }
  }

  lemma {:induction false} ItemsMapTwice(items: seq<Json>, f: Renaming, g: Renaming, h: Renaming)
    requires Agree(Then(f, g), h, ItemsRefs(items))
    ensures MapItems(MapItems(items, f), g) == MapItems(items, h)
    decreases items, 0
  {
    if items != [] {
      AgreeParts(Then(f, g), h, ScalarRefs(items[0]), ItemsRefs(items[1..]));
      ScalarMapTwice(items[0], f, g, h);
      ItemsMapTwice(items[1..], f, g, h);
      assert MapItems(items, f)[1..] == MapItems(items[1..], f);
    }
  }

  lemma {:induction false} FieldsMapTwice(fields: seq<Field>, f: Renaming, g: Renaming, h: Renaming)
    requires Agree(Then(f, g), h, FieldsRefs(fields))
    ensures MapFields(MapFields(fields, f), g) == MapFields(fields, h)
    decreases fields, 0
  {
    if fields != [] {
      AgreeParts(Then(f, g), h, FieldRefs(fields[0]), FieldsRefs(fields[1..]));
      FieldMapTwice(fields[0], f, g, h);
      FieldsMapTwice(fields[1..], f, g, h);
      assert MapFields(fields, f)[1..] == MapFields(fields[1..], f);
    }
  }

  lemma {:induction false} FieldMapTwice(field: Field, f: Renaming, g: Renaming, h: Renaming)
    requires Agree(Then(f, g), h, FieldRefs(field))
    ensures MapField(MapField(field, f), g) == MapField(field, h)
    decreases field, 1
  {
    if field.name in SCALAR_REF_FIELDS && field.value.Num? {
      assert Then(f, g)(FieldRefs(field)[0]) == h(FieldRefs(field)[0]);
    } else {
      NumStays(field.value, f);
      ScalarMapTwice(field.value, f, g, h);
    }
  }

  lemma {:induction false} ItemsRenamedTwice(items: seq<Json>, f: Renaming, g: Renaming, h: Renaming)
    requires Agree(Then(f, g), h, Numbers(items))
    ensures RenamedItems(RenamedItems(items, f), g) == RenamedItems(items, h)
  {
    if items != [] {
      var head := if items[0].Num? then [items[0].n] else [];
      AgreeParts(Then(f, g), h, head, Numbers(items[1..]));
      ItemsRenamedTwice(items[1..], f, g, h);
      assert RenamedItems(items, f)[1..] == RenamedItems(items[1..], f);
      if items[0].Num? { assert Then(f, g)(head[0]) == h(head[0]); }
    }
  }

  lemma ChildMapTwice(v: Json, f: Renaming, g: Renaming, h: Renaming)
    requires Agree(Then(f, g), h, ChildIds(v))
    ensures MapChildField(MapChildField(v, f), g) == MapChildField(v, h)
  {
    match v {
      case Arr(items) => ItemsRenamedTwice(items, f, g, h);
      case Num(n) => assert Then(f, g)(ChildIds(v)[0]) == h(ChildIds(v)[0]);
      case _ =>
    }
  }

  /** Every id a body's field holds is among the ids it reads, when its field is the first of its name. */
  lemma {:induction false} ChildFieldListed(fields: seq<Field>, names: seq<string>, k: nat, f: Renaming, h: Renaming)
    requires k < |names| && Agree(f, h, ChildFieldIds(fields, names))
    ensures Agree(f, h, ChildIds(Lookup(fields, names[k])))
  {
    AgreeParts(f, h, ChildIds(Lookup(fields, names[0])), ChildFieldIds(fields, names[1..]));
    if k > 0 { ChildFieldListed(fields, names[1..], k - 1, f, h); }
  }

  predicate DistinctNames(fields: seq<Field>) {
    forall i, j :: 0 <= i < j < |fields| ==> fields[i].name != fields[j].name
  }

  lemma {:induction false} LookupAt(fields: seq<Field>, i: nat)
    requires DistinctNames(fields) && i < |fields|
    ensures Lookup(fields, fields[i].name) == fields[i].value
  {
    if i > 0 {
      assert fields[0].name != fields[i].name;
      LookupAt(fields[1..], i - 1);
    }
  }

  lemma {:induction false} OtherFieldListed(fields: seq<Field>, i: nat, f: Renaming, h: Renaming)
    requires i < |fields| && fields[i].name !in CHILD_FIELDS && Agree(f, h, OtherRefs(fields))
    ensures Agree(f, h, FieldRefs(fields[i]))
  {
    AgreeParts(f, h, if fields[0].name in CHILD_FIELDS then [] else FieldRefs(fields[0]), OtherRefs(fields[1..]));
    if i > 0 { OtherFieldListed(fields[1..], i - 1, f, h); }
  }

  lemma {:induction false} MapBodyIs(fields: seq<Field>, f: Renaming)
    ensures |MapBody(fields, f)| == |fields|
    ensures forall i :: 0 <= i < |fields| ==> MapBody(fields, f)[i] == MapBodyField(fields[i], f)
  {
    hide MapBodyField;
    if fields != [] { MapBodyIs(fields[1..], f); }
  }

  /** Renaming a body twice is renaming it once. */
  lemma BodyMapTwice(fields: seq<Field>, f: Renaming, g: Renaming, h: Renaming)
    requires DistinctNames(fields) && Agree(Then(f, g), h, LogicalChildren(fields))
    ensures MapBody(MapBody(fields, f), g) == MapBody(fields, h)
  {
    AgreeParts(Then(f, g), h, ChildFieldIds(fields, CHILD_FIELDS), OtherRefs(fields));
    MapBodyIs(fields, f);
    MapBodyIs(MapBody(fields, f), g);
    MapBodyIs(fields, h);
    forall i | 0 <= i < |fields| ensures MapBodyField(MapBodyField(fields[i], f), g) == MapBodyField(fields[i], h) {
      BodyFieldMapTwice(fields, i, f, g, h);
    }
    hide *;
    assert MapBody(MapBody(fields, f), g) == MapBody(fields, h);
  }

  lemma BodyFieldMapTwice(fields: seq<Field>, i: nat, f: Renaming, g: Renaming, h: Renaming)
    requires DistinctNames(fields) && i < |fields|
    requires Agree(Then(f, g), h, ChildFieldIds(fields, CHILD_FIELDS)) && Agree(Then(f, g), h, OtherRefs(fields))
    ensures MapBodyField(MapBodyField(fields[i], f), g) == MapBodyField(fields[i], h)
  {
    hide CHILD_FIELDS, Then;
    if fields[i].name in CHILD_FIELDS {
      var k :| 0 <= k < |CHILD_FIELDS| && CHILD_FIELDS[k] == fields[i].name;
      ChildFieldListed(fields, CHILD_FIELDS, k, Then(f, g), h);
      LookupAt(fields, i);
      ChildMapTwice(fields[i].value, f, g, h);
    } else {
      OtherFieldListed(fields, i, Then(f, g), h);
      FieldMapTwice(fields[i], f, g, h);
    }
  }

  /** Renaming an operator's references twice is renaming them once. */
  lemma OperatorMapTwice(op: Json, f: Renaming, g: Renaming, h: Renaming)
    requires DistinctNames(Parts(op).1) && Agree(Then(f, g), h, References(op))
    requires BodyIsObject(op)
    ensures MapLogicalChildren(MapLogicalChildren(op, f), g) == MapLogicalChildren(op, h)
  {
    BodyMapTwice(Parts(op).1, f, g, h);
    hide MapBody;
  }
}
