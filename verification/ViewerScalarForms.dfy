/**
 The scalar expressions of the IR as a stage document writes them, and the
 operators the viewer finds that they read
 (crates/types/src/ir/scalar/mod.rs:44-220, tools/dag-viewer/stages.js:132-162).
 */
module ViewerScalarForms {
  import opened Results
  import opened ViewerOperators

  // --------------------------------------------------- what is only data

  /** No field anywhere inside that names a plan reading and holds an id. */
  predicate NoReading(v: Json)
    decreases v, 0
  {
    match v
    case Arr(items) => NoReadings(items)
    case Obj(fields) => NoReadingFields(fields)
    case _ => true
  }

  predicate NoReadings(items: seq<Json>)
    decreases items, 0
  {
    items == [] || (NoReading(items[0]) && NoReadings(items[1..]))
  }

  predicate NoReadingFields(fields: seq<Field>)
    decreases fields, 0
  {
    fields == [] ||
    (var field := fields[0];
     assert field.value < field;
     !(field.value.Num? && field.name in ["PromqlScalarFromVector", "ScalarSubquery", "subquery"])
     && NoReading(field.value) && NoReadingFields(fields[1..]))
  }

  /** Sources, schemas, column ids, literals and the like. */
  type Data = v: Json | NoReading(v) witness Null

  lemma {:induction false} DataReadsNothing(v: Json, f: Renaming)
    requires NoReading(v)
    ensures ScalarRefs(v) == [] && MapScalarRefs(v, f) == v
    decreases v, 0
  {
    match v {
      case Arr(items) => DataItems(items, f);
      case Obj(fields) => DataFields(fields, f);
      case _ =>
    }
  }

  lemma {:induction false} DataItems(items: seq<Json>, f: Renaming)
    requires NoReadings(items)
    ensures ItemsRefs(items) == [] && MapItems(items, f) == items
    decreases items, 0
  {
    if items != [] {
      DataReadsNothing(items[0], f);
      DataItems(items[1..], f);
    }
  }

  lemma {:induction false} DataFields(fields: seq<Field>, f: Renaming)
    requires NoReadingFields(fields)
    ensures FieldsRefs(fields) == [] && MapFields(fields, f) == fields
    decreases fields, 0
  {
    if fields != [] {
      DataReadsNothing(fields[0].value, f);
      DataFields(fields[1..], f);
    }
  }

  // ------------------------------------------------- scalar expressions

  datatype Scalar =
    | Column(column: Data)
    | Literal(value: Data)
    | Negative(expr: Scalar, semantics: Data)
    | Compare(left: Scalar, op: Data, right: Scalar, semantics: Data)
    | BoolAnd(parts: seq<Scalar>)
    | BoolOr(parts: seq<Scalar>)
    | Not(expr: Scalar)
    | IsNull(expr: Scalar)
    | IsNotNull(expr: Scalar)
    | Cast(expr: Scalar, to: Data, tryCast: Data)
    | InList(expr: Scalar, list: seq<Scalar>, negated: Data)
    | FunctionCall(name: Data, args: seq<Scalar>)
    | Arithmetic(op: Data, left: Scalar, right: Scalar, semantics: Data)
    | Case(operand: Option<Scalar>, branches: seq<(Scalar, Scalar)>, otherwise: Option<Scalar>)
    | CurrentTimestamp
    | EvalTimestamp
    | PromqlScalarFromVector(node: int)
    | ScalarSubquery(node: int)
    | Exists(subquery: int, negated: Data)
    | InSubquery(expr: Scalar, subquery: int, negated: Data)

  function Tagged(tag: string, value: Json): Json {
    Obj([Field(tag, value)])
  }

  function Written(e: Scalar): Json
    decreases e, 1
  {
    match e
    case Column(column) => Tagged("Column", column)
    case Literal(value) => Tagged("Literal", value)
    case Negative(expr, semantics) => Tagged("Negative", Obj([Field("expr", Written(expr)), Field("semantics", semantics)]))
    case Compare(left, op, right, semantics) =>
      Tagged("Compare", Obj([Field("left", Written(left)), Field("op", op), Field("right", Written(right)),
                             Field("semantics", semantics)]))
    case BoolAnd(parts) => Tagged("BoolAnd", Arr(WrittenAll(parts)))
    case BoolOr(parts) => Tagged("BoolOr", Arr(WrittenAll(parts)))
    case Not(expr) => Tagged("Not", Written(expr))
    case IsNull(expr) => Tagged("IsNull", Written(expr))
    case IsNotNull(expr) => Tagged("IsNotNull", Written(expr))
    case Cast(expr, to, tryCast) =>
      Tagged("Cast", Obj([Field("expr", Written(expr)), Field("to", to), Field("try_cast", tryCast)]))
    case InList(expr, list, negated) =>
      Tagged("InList", Obj([Field("expr", Written(expr)), Field("list", Arr(WrittenAll(list))), Field("negated", negated)]))
    case FunctionCall(name, args) => Tagged("FunctionCall", Obj([Field("name", name), Field("args", Arr(WrittenAll(args)))]))
    case Arithmetic(op, left, right, semantics) =>
      Tagged("Arithmetic", Obj([Field("op", op), Field("left", Written(left)), Field("right", Written(right)),
                                Field("semantics", semantics)]))
    case Case(operand, branches, otherwise) =>
      Tagged("Case", Obj([Field("operand", WrittenOption(operand)), Field("branches", Arr(WrittenBranches(branches))),
                          Field("else_expr", WrittenOption(otherwise))]))
    case CurrentTimestamp => Str("CurrentTimestamp")
    case EvalTimestamp => Str("EvalTimestamp")
    case PromqlScalarFromVector(node) => Tagged("PromqlScalarFromVector", Num(node))
    case ScalarSubquery(node) => Tagged("ScalarSubquery", Num(node))
    case Exists(subquery, negated) => Tagged("Exists", Obj([Field("subquery", Num(subquery)), Field("negated", negated)]))
    case InSubquery(expr, subquery, negated) =>
      Tagged("InSubquery", Obj([Field("expr", Written(expr)), Field("subquery", Num(subquery)), Field("negated", negated)]))
  }

  function WrittenAll(es: seq<Scalar>): (items: seq<Json>)
    ensures |items| == |es|
    decreases es, 0
  {
    if es == [] then [] else [Written(es[0])] + WrittenAll(es[1..])
  }

  function WrittenBranches(branches: seq<(Scalar, Scalar)>): seq<Json>
    decreases branches, 0
  {
    if branches == [] then []
    else
      var branch := branches[0];
      assert branch.0 < branch && branch.1 < branch;
      [Arr([Written(branch.0), Written(branch.1)])] + WrittenBranches(branches[1..])
  }

  function WrittenOption(e: Option<Scalar>): Json
    decreases e, 2
  {
    if e.Some? then Written(e.value) else Null
  }

  /** The operators the expression reads, in the order their ids are written. */
  function Reads(e: Scalar): seq<int>
    decreases e, 1
  {
    match e
    case Negative(expr, _) => Reads(expr)
    case Compare(left, _, right, _) => Reads(left) + Reads(right)
    case BoolAnd(parts) => ReadsOf(parts)
    case BoolOr(parts) => ReadsOf(parts)
    case Not(expr) => Reads(expr)
    case IsNull(expr) => Reads(expr)
    case IsNotNull(expr) => Reads(expr)
    case Cast(expr, _, _) => Reads(expr)
    case InList(expr, list, _) => Reads(expr) + ReadsOf(list)
    case FunctionCall(_, args) => ReadsOf(args)
    case Arithmetic(_, left, right, _) => Reads(left) + Reads(right)
    case Case(operand, branches, otherwise) => OptionReads(operand) + BranchReads(branches) + OptionReads(otherwise)
    case PromqlScalarFromVector(node) => [node]
    case ScalarSubquery(node) => [node]
    case Exists(subquery, _) => [subquery]
    case InSubquery(expr, subquery, _) => Reads(expr) + [subquery]
    case _ => []
  }

  function ReadsOf(es: seq<Scalar>): seq<int>
    decreases es, 0
  {
    if es == [] then [] else Reads(es[0]) + ReadsOf(es[1..])
  }

  function BranchReads(branches: seq<(Scalar, Scalar)>): seq<int>
    decreases branches, 0
  {
    if branches == [] then []
    else
      var branch := branches[0];
      assert branch.0 < branch && branch.1 < branch;
      Reads(branch.0) + Reads(branch.1) + BranchReads(branches[1..])
  }

  function OptionReads(e: Option<Scalar>): seq<int>
    decreases e, 2
  {
    if e.Some? then Reads(e.value) else []
  }

  // ------------------------------------------- reading back an expression

  lemma {:induction false} OneRef(a: Field)
    ensures FieldsRefs([a]) == FieldRefs(a)
  {
    assert [a][1..] == [];
  }

  lemma {:induction false} MoreRefs(a: Field, rest: seq<Field>)
    ensures FieldsRefs([a] + rest) == FieldRefs(a) + FieldsRefs(rest)
  {
    assert ([a] + rest)[1..] == rest;
  }

  lemma TaggedRefs(tag: string, v: Json)
    ensures ScalarRefs(Tagged(tag, v)) == FieldRefs(Field(tag, v))
  {
    OneRef(Field(tag, v));
  }

  lemma TwoRefs(a: Field, b: Field)
    ensures ScalarRefs(Obj([a, b])) == FieldRefs(a) + FieldRefs(b)
  {
    hide FieldRefs;
    OneRef(b);
    MoreRefs(a, [b]);
    assert [a] + [b] == [a, b];
  }

  lemma ThreeRefs(a: Field, b: Field, c: Field)
    ensures ScalarRefs(Obj([a, b, c])) == FieldRefs(a) + FieldRefs(b) + FieldRefs(c)
  {
    hide FieldRefs;
    OneRef(c);
    MoreRefs(b, [c]);
    MoreRefs(a, [b, c]);
    assert [b] + [c] == [b, c] && [a] + [b, c] == [a, b, c];
  }

  lemma FourRefs(a: Field, b: Field, c: Field, d: Field)
    ensures ScalarRefs(Obj([a, b, c, d])) == FieldRefs(a) + FieldRefs(b) + FieldRefs(c) + FieldRefs(d)
  {
    hide FieldRefs;
    TwoRefs(c, d);
    MoreRefs(b, [c, d]);
    MoreRefs(a, [b, c, d]);
    assert [b] + [c, d] == [b, c, d] && [a] + [b, c, d] == [a, b, c, d];
  }

  /** A field that is not an id holds the references inside it. */
  lemma Inside(name: string, v: Json)
    requires !v.Num?
    ensures FieldRefs(Field(name, v)) == ScalarRefs(v)
  {
  }

  /** Data under a name that no reading uses is only data. */
  lemma DataField(name: string, v: Data)
    requires name !in SCALAR_REF_FIELDS
    ensures FieldRefs(Field(name, v)) == []
  {
    DataReadsNothing(v, (id: int) => None);
  }

  lemma NotAnId(e: Scalar)
    ensures !Written(e).Num?
  {
  }

  lemma ExprField(name: string, e: Scalar)
    ensures FieldRefs(Field(name, Written(e))) == ScalarRefs(Written(e))
  {
    NotAnId(e);
    Inside(name, Written(e));
  }

  lemma ListField(name: string, es: seq<Scalar>)
    ensures FieldRefs(Field(name, Arr(WrittenAll(es)))) == ItemsRefs(WrittenAll(es))
  {
    Inside(name, Arr(WrittenAll(es)));
  }

  lemma IdField(name: string, id: int)
    requires name in SCALAR_REF_FIELDS
    ensures FieldRefs(Field(name, Num(id))) == [id]
  {
  }

  /** The viewer reads back what an expression reads, in the order written. */
  lemma {:induction false} ReadBack(e: Scalar)
    ensures ScalarRefs(Written(e)) == Reads(e)
    decreases e, 1
  {
    hide FieldRefs, FieldsRefs, ScalarRefs, ItemsRefs;
    match e {
      case Column(column) => TaggedRefs("Column", column); DataField("Column", column);
      case Literal(value) => TaggedRefs("Literal", value); DataField("Literal", value);
      case Negative(expr, semantics) =>
        var a, b := Field("expr", Written(expr)), Field("semantics", semantics);
        TwoRefs(a, b);
        ReadBack(expr); ExprField("expr", expr); DataField("semantics", semantics);
        InnerRefs("Negative", [a, b]);
      case BoolAnd(parts) => AllReadBack(parts); InnerItems("BoolAnd", WrittenAll(parts));
      case BoolOr(parts) => AllReadBack(parts); InnerItems("BoolOr", WrittenAll(parts));
      case Not(expr) => ReadBack(expr); TaggedRefs("Not", Written(expr)); ExprField("Not", expr);
      case IsNull(expr) => ReadBack(expr); TaggedRefs("IsNull", Written(expr)); ExprField("IsNull", expr);
      case IsNotNull(expr) => ReadBack(expr); TaggedRefs("IsNotNull", Written(expr)); ExprField("IsNotNull", expr);
      case Cast(expr, to, tryCast) =>
        var a, b, c := Field("expr", Written(expr)), Field("to", to), Field("try_cast", tryCast);
        ThreeRefs(a, b, c);
        ReadBack(expr); ExprField("expr", expr); DataField("to", to); DataField("try_cast", tryCast);
        InnerRefs("Cast", [a, b, c]);
      case FunctionCall(name, args) =>
        var a, b := Field("name", name), Field("args", Arr(WrittenAll(args)));
        TwoRefs(a, b);
        AllReadBack(args); DataField("name", name); ListField("args", args);
        InnerRefs("FunctionCall", [a, b]);
      case CurrentTimestamp => StrRefs("CurrentTimestamp");
      case EvalTimestamp => StrRefs("EvalTimestamp");
      case PromqlScalarFromVector(node) => TaggedRefs("PromqlScalarFromVector", Num(node)); IdField("PromqlScalarFromVector", node);
      case ScalarSubquery(node) => TaggedRefs("ScalarSubquery", Num(node)); IdField("ScalarSubquery", node);
      case Exists(subquery, negated) =>
        var a, b := Field("subquery", Num(subquery)), Field("negated", negated);
        TwoRefs(a, b);
        IdField("subquery", subquery); DataField("negated", negated);
        InnerRefs("Exists", [a, b]);
      case _ => WideReadBack(e);
    }
  }

  lemma {:induction false} WideReadBack(e: Scalar)
    requires e.Compare? || e.InList? || e.Arithmetic? || e.Case? || e.InSubquery?
    ensures ScalarRefs(Written(e)) == Reads(e)
    decreases e, 0
  {
    hide FieldRefs, FieldsRefs, ScalarRefs, ItemsRefs;
    match e {
      case Compare(left, op, right, semantics) =>
        var a, b, c, d := Field("left", Written(left)), Field("op", op), Field("right", Written(right)), Field("semantics", semantics);
        FourRefs(a, b, c, d);
        ReadBack(left); ReadBack(right);
        ExprField("left", left); DataField("op", op); ExprField("right", right); DataField("semantics", semantics);
        InnerRefs("Compare", [a, b, c, d]);
      case InList(expr, list, negated) =>
        var a, b, c := Field("expr", Written(expr)), Field("list", Arr(WrittenAll(list))), Field("negated", negated);
        ThreeRefs(a, b, c);
        ReadBack(expr); AllReadBack(list); ExprField("expr", expr); ListField("list", list); DataField("negated", negated);
        InnerRefs("InList", [a, b, c]);
      case Arithmetic(op, left, right, semantics) =>
        var a, b, c, d := Field("op", op), Field("left", Written(left)), Field("right", Written(right)), Field("semantics", semantics);
        FourRefs(a, b, c, d);
        ReadBack(left); ReadBack(right);
        DataField("op", op); ExprField("left", left); ExprField("right", right); DataField("semantics", semantics);
        InnerRefs("Arithmetic", [a, b, c, d]);
      case Case(operand, branches, otherwise) =>
        var a, b, c := Field("operand", WrittenOption(operand)), Field("branches", Arr(WrittenBranches(branches))),
          Field("else_expr", WrittenOption(otherwise));
        ThreeRefs(a, b, c);
        OptionReadBack("operand", operand); BranchesReadBack(branches); OptionReadBack("else_expr", otherwise);
        Inside("branches", Arr(WrittenBranches(branches))); ItemsAre(WrittenBranches(branches));
        InnerRefs("Case", [a, b, c]);
      case InSubquery(expr, subquery, negated) =>
        var a, b, c := Field("expr", Written(expr)), Field("subquery", Num(subquery)), Field("negated", negated);
        ThreeRefs(a, b, c);
        ReadBack(expr); ExprField("expr", expr); IdField("subquery", subquery); DataField("negated", negated);
        InnerRefs("InSubquery", [a, b, c]);
    }
  }

  lemma StrRefs(s: string)
    ensures ScalarRefs(Str(s)) == []
  {
  }

  lemma ItemsAre(items: seq<Json>)
    ensures ScalarRefs(Arr(items)) == ItemsRefs(items)
  {
  }

  lemma InnerRefs(tag: string, fields: seq<Field>)
    ensures ScalarRefs(Tagged(tag, Obj(fields))) == ScalarRefs(Obj(fields))
  {
    hide ScalarRefs, FieldRefs;
    TaggedRefs(tag, Obj(fields));
    Inside(tag, Obj(fields));
  }

  lemma InnerItems(tag: string, items: seq<Json>)
    ensures ScalarRefs(Tagged(tag, Arr(items))) == ItemsRefs(items)
  {
    TaggedRefs(tag, Arr(items));
    Inside(tag, Arr(items));
    ItemsAre(items);
  }

  lemma {:induction false} AllReadBack(es: seq<Scalar>)
    ensures ItemsRefs(WrittenAll(es)) == ReadsOf(es)
    decreases es, 0
  {
    if es != [] {
      ReadBack(es[0]);
      AllReadBack(es[1..]);
      hide ScalarRefs, Written, Reads;
      assert WrittenAll(es)[1..] == WrittenAll(es[1..]);
    }
  }

  lemma {:induction false} BranchesReadBack(branches: seq<(Scalar, Scalar)>)
    ensures ItemsRefs(WrittenBranches(branches)) == BranchReads(branches)
    decreases branches, 0
  {
    if branches != [] {
      var branch := branches[0];
      assert branch.0 < branch && branch.1 < branch;
      ReadBack(branch.0);
      ReadBack(branch.1);
      BranchesReadBack(branches[1..]);
      PairRefs(Written(branch.0), Written(branch.1));
      hide ScalarRefs, Written, Reads;
      assert WrittenBranches(branches)[1..] == WrittenBranches(branches[1..]);
    }
  }

  lemma PairRefs(a: Json, b: Json)
    ensures ScalarRefs(Arr([a, b])) == ScalarRefs(a) + ScalarRefs(b)
  {
    ItemsAre([a, b]);
    assert [a, b][1..] == [b] && [b][1..] == [];
    assert ItemsRefs([b]) == ScalarRefs(b);
  }

  lemma OptionReadBack(name: string, e: Option<Scalar>)
    ensures FieldRefs(Field(name, WrittenOption(e))) == OptionReads(e)
    decreases e, 2
  {
    if e.Some? {
      ReadBack(e.value);
      ExprField(name, e.value);
    }
  }

  // ------------------------------------------------ renaming what is read

  /** A renaming that leaves none out. */
  function Total(g: int -> int): Renaming {
    (id: int) => Some(g(id))
  }

  function MapScalar(e: Scalar, g: int -> int): Scalar
    decreases e, 1
  {
    match e
    case Negative(expr, semantics) => Negative(MapScalar(expr, g), semantics)
    case Compare(left, op, right, semantics) => Compare(MapScalar(left, g), op, MapScalar(right, g), semantics)
    case BoolAnd(parts) => BoolAnd(MapScalars(parts, g))
    case BoolOr(parts) => BoolOr(MapScalars(parts, g))
    case Not(expr) => Not(MapScalar(expr, g))
    case IsNull(expr) => IsNull(MapScalar(expr, g))
    case IsNotNull(expr) => IsNotNull(MapScalar(expr, g))
    case Cast(expr, to, tryCast) => Cast(MapScalar(expr, g), to, tryCast)
    case InList(expr, list, negated) => InList(MapScalar(expr, g), MapScalars(list, g), negated)
    case FunctionCall(name, args) => FunctionCall(name, MapScalars(args, g))
    case Arithmetic(op, left, right, semantics) => Arithmetic(op, MapScalar(left, g), MapScalar(right, g), semantics)
    case Case(operand, branches, otherwise) => Case(MapOption(operand, g), MapBranches(branches, g), MapOption(otherwise, g))
    case PromqlScalarFromVector(node) => PromqlScalarFromVector(g(node))
    case ScalarSubquery(node) => ScalarSubquery(g(node))
    case Exists(subquery, negated) => Exists(g(subquery), negated)
    case InSubquery(expr, subquery, negated) => InSubquery(MapScalar(expr, g), g(subquery), negated)
    case _ => e
  }

  function MapScalars(es: seq<Scalar>, g: int -> int): (mapped: seq<Scalar>)
    ensures |mapped| == |es|
    decreases es, 0
  {
    if es == [] then [] else [MapScalar(es[0], g)] + MapScalars(es[1..], g)
  }

  function MapBranches(branches: seq<(Scalar, Scalar)>, g: int -> int): seq<(Scalar, Scalar)>
    decreases branches, 0
  {
    if branches == [] then []
    else
      var branch := branches[0];
      assert branch.0 < branch && branch.1 < branch;
      [(MapScalar(branch.0, g), MapScalar(branch.1, g))] + MapBranches(branches[1..], g)
  }

  function MapOption(e: Option<Scalar>, g: int -> int): Option<Scalar>
    decreases e, 2
  {
    if e.Some? then Some(MapScalar(e.value, g)) else None
  }

  lemma OneMapped(a: Field, f: Renaming)
    ensures MapFields([a], f) == [MapField(a, f)]
  {
    assert [a][1..] == [];
  }

  lemma MoreMapped(a: Field, rest: seq<Field>, f: Renaming)
    ensures MapFields([a] + rest, f) == [MapField(a, f)] + MapFields(rest, f)
  {
    assert ([a] + rest)[1..] == rest;
  }

  lemma TwoMapped(a: Field, b: Field, f: Renaming)
    ensures MapFields([a, b], f) == [MapField(a, f), MapField(b, f)]
  {
    hide MapField;
    OneMapped(b, f);
    MoreMapped(a, [b], f);
    assert [a] + [b] == [a, b];
  }

  lemma ThreeMapped(a: Field, b: Field, c: Field, f: Renaming)
    ensures MapFields([a, b, c], f) == [MapField(a, f), MapField(b, f), MapField(c, f)]
  {
    hide MapField;
    TwoMapped(b, c, f);
    MoreMapped(a, [b, c], f);
    assert [a] + [b, c] == [a, b, c];
  }

  lemma FourMapped(a: Field, b: Field, c: Field, d: Field, f: Renaming)
    ensures MapFields([a, b, c, d], f) == [MapField(a, f), MapField(b, f), MapField(c, f), MapField(d, f)]
  {
    hide MapField;
    ThreeMapped(b, c, d, f);
    MoreMapped(a, [b, c, d], f);
    assert [a] + [b, c, d] == [a, b, c, d];
  }

  lemma MappedInside(name: string, v: Json, f: Renaming)
    requires !v.Num?
    ensures MapField(Field(name, v), f) == Field(name, MapScalarRefs(v, f))
  {
  }

  lemma MappedData(name: string, v: Data, f: Renaming)
    requires name !in SCALAR_REF_FIELDS
    ensures MapField(Field(name, v), f) == Field(name, v)
  {
    DataReadsNothing(v, f);
  }

  lemma MappedId(name: string, id: int, g: int -> int)
    requires name in SCALAR_REF_FIELDS
    ensures MapField(Field(name, Num(id)), Total(g)) == Field(name, Num(g(id)))
  {
  }

  lemma MappedObj(fields: seq<Field>, f: Renaming)
    ensures MapScalarRefs(Obj(fields), f) == Obj(MapFields(fields, f))
  {
  }

  lemma MappedArr(items: seq<Json>, f: Renaming)
    ensures MapScalarRefs(Arr(items), f) == Arr(MapItems(items, f))
  {
  }

  lemma MappedTag(tag: string, v: Json, f: Renaming)
    ensures MapScalarRefs(Tagged(tag, v), f) == Obj([MapField(Field(tag, v), f)])
  {
    OneMapped(Field(tag, v), f);
  }

  lemma MappedBody(tag: string, fields: seq<Field>, f: Renaming)
    ensures MapScalarRefs(Tagged(tag, Obj(fields)), f) == Tagged(tag, Obj(MapFields(fields, f)))
  {
    MappedTag(tag, Obj(fields), f);
    MappedInside(tag, Obj(fields), f);
    MappedObj(fields, f);
  }

  lemma MappedList(tag: string, items: seq<Json>, f: Renaming)
    ensures MapScalarRefs(Tagged(tag, Arr(items)), f) == Tagged(tag, Arr(MapItems(items, f)))
    ensures MapField(Field(tag, Arr(items)), f) == Field(tag, Arr(MapItems(items, f)))
  {
    MappedTag(tag, Arr(items), f);
    MappedInside(tag, Arr(items), f);
    MappedArr(items, f);
  }

  lemma MappedExpr(name: string, e: Scalar, g: int -> int)
    requires MapScalarRefs(Written(e), Total(g)) == Written(MapScalar(e, g))
    ensures MapField(Field(name, Written(e)), Total(g)) == Field(name, Written(MapScalar(e, g)))
  {
    NotAnId(e);
    MappedInside(name, Written(e), Total(g));
  }

  lemma StrMapped(s: string, f: Renaming)
    ensures MapScalarRefs(Str(s), f) == Str(s)
  {
  }

  /** Renaming what a written expression reads writes the renamed expression. */
  lemma {:induction false} ScalarWritten(e: Scalar, g: int -> int)
    ensures MapScalarRefs(Written(e), Total(g)) == Written(MapScalar(e, g))
    decreases e, 1
  {
    hide MapField, MapFields, MapScalarRefs, MapItems, Total;
    var f := Total(g);
    match e {
      case Column(column) => MappedTag("Column", column, f); MappedData("Column", column, f);
      case Literal(value) => MappedTag("Literal", value, f); MappedData("Literal", value, f);
      case BoolAnd(parts) => ScalarsWritten(parts, g); MappedList("BoolAnd", WrittenAll(parts), f);
      case BoolOr(parts) => ScalarsWritten(parts, g); MappedList("BoolOr", WrittenAll(parts), f);
      case Not(expr) => ScalarWritten(expr, g); MappedTag("Not", Written(expr), f); MappedExpr("Not", expr, g);
      case IsNull(expr) => ScalarWritten(expr, g); MappedTag("IsNull", Written(expr), f); MappedExpr("IsNull", expr, g);
      case IsNotNull(expr) => ScalarWritten(expr, g); MappedTag("IsNotNull", Written(expr), f); MappedExpr("IsNotNull", expr, g);
      case CurrentTimestamp => StrMapped("CurrentTimestamp", f);
      case EvalTimestamp => StrMapped("EvalTimestamp", f);
      case PromqlScalarFromVector(node) =>
        MappedTag("PromqlScalarFromVector", Num(node), f); MappedId("PromqlScalarFromVector", node, g);
      case ScalarSubquery(node) => MappedTag("ScalarSubquery", Num(node), f); MappedId("ScalarSubquery", node, g);
      case Compare(_, _, _, _) => WideWritten(e, g);
      case InList(_, _, _) => WideWritten(e, g);
      case Arithmetic(_, _, _, _) => WideWritten(e, g);
      case Case(_, _, _) => WideWritten(e, g);
      case InSubquery(_, _, _) => WideWritten(e, g);
      case _ => NarrowWritten(e, g);
    }
  }

  lemma {:induction false} NarrowWritten(e: Scalar, g: int -> int)
    requires e.Negative? || e.Cast? || e.FunctionCall? || e.Exists?
    ensures MapScalarRefs(Written(e), Total(g)) == Written(MapScalar(e, g))
    decreases e, 0
  {
    hide MapField, MapFields, MapScalarRefs, MapItems, Total;
    var f := Total(g);
    match e {
      case Negative(expr, semantics) =>
        var a, b := Field("expr", Written(expr)), Field("semantics", semantics);
        ScalarWritten(expr, g);
        TwoMapped(a, b, f); MappedExpr("expr", expr, g); MappedData("semantics", semantics, f);
        MappedBody("Negative", [a, b], f);
      case Cast(expr, to, tryCast) =>
        var a, b, c := Field("expr", Written(expr)), Field("to", to), Field("try_cast", tryCast);
        ScalarWritten(expr, g);
        ThreeMapped(a, b, c, f); MappedExpr("expr", expr, g); MappedData("to", to, f); MappedData("try_cast", tryCast, f);
        MappedBody("Cast", [a, b, c], f);
      case FunctionCall(name, args) =>
        var a, b := Field("name", name), Field("args", Arr(WrittenAll(args)));
        ScalarsWritten(args, g);
        TwoMapped(a, b, f); MappedData("name", name, f); MappedList("args", WrittenAll(args), f);
        MappedBody("FunctionCall", [a, b], f);
      case Exists(subquery, negated) =>
        var a, b := Field("subquery", Num(subquery)), Field("negated", negated);
        TwoMapped(a, b, f); MappedId("subquery", subquery, g); MappedData("negated", negated, f);
        MappedBody("Exists", [a, b], f);
    }
  }

  lemma {:induction false} WideWritten(e: Scalar, g: int -> int)
    requires e.Compare? || e.InList? || e.Arithmetic? || e.Case? || e.InSubquery?
    ensures MapScalarRefs(Written(e), Total(g)) == Written(MapScalar(e, g))
    decreases e, 0
  {
    hide MapField, MapFields, MapScalarRefs, MapItems, Total;
    var f := Total(g);
    match e {
      case Compare(left, op, right, semantics) =>
        var a, b, c, d := Field("left", Written(left)), Field("op", op), Field("right", Written(right)), Field("semantics", semantics);
        ScalarWritten(left, g); ScalarWritten(right, g);
        FourMapped(a, b, c, d, f);
        MappedExpr("left", left, g); MappedData("op", op, f); MappedExpr("right", right, g); MappedData("semantics", semantics, f);
        MappedBody("Compare", [a, b, c, d], f);
      case InList(expr, list, negated) =>
        var a, b, c := Field("expr", Written(expr)), Field("list", Arr(WrittenAll(list))), Field("negated", negated);
        ScalarWritten(expr, g); ScalarsWritten(list, g);
        ThreeMapped(a, b, c, f);
        MappedExpr("expr", expr, g); MappedList("list", WrittenAll(list), f); MappedData("negated", negated, f);
        MappedBody("InList", [a, b, c], f);
      case Arithmetic(op, left, right, semantics) =>
        var a, b, c, d := Field("op", op), Field("left", Written(left)), Field("right", Written(right)), Field("semantics", semantics);
        ScalarWritten(left, g); ScalarWritten(right, g);
        FourMapped(a, b, c, d, f);
        MappedData("op", op, f); MappedExpr("left", left, g); MappedExpr("right", right, g); MappedData("semantics", semantics, f);
        MappedBody("Arithmetic", [a, b, c, d], f);
      case Case(operand, branches, otherwise) =>
        var a, b, c := Field("operand", WrittenOption(operand)), Field("branches", Arr(WrittenBranches(branches))),
          Field("else_expr", WrittenOption(otherwise));
        OptionWritten("operand", operand, g); BranchesWritten(branches, g); OptionWritten("else_expr", otherwise, g);
        ThreeMapped(a, b, c, f); MappedList("branches", WrittenBranches(branches), f);
        MappedBody("Case", [a, b, c], f);
      case InSubquery(expr, subquery, negated) =>
        var a, b, c := Field("expr", Written(expr)), Field("subquery", Num(subquery)), Field("negated", negated);
        ScalarWritten(expr, g);
        ThreeMapped(a, b, c, f);
        MappedExpr("expr", expr, g); MappedId("subquery", subquery, g); MappedData("negated", negated, f);
        MappedBody("InSubquery", [a, b, c], f);
    }
  }

  lemma {:induction false} ScalarsWritten(es: seq<Scalar>, g: int -> int)
    ensures MapItems(WrittenAll(es), Total(g)) == WrittenAll(MapScalars(es, g))
    decreases es, 0
  {
    if es != [] {
      ScalarWritten(es[0], g);
      ScalarsWritten(es[1..], g);
      hide MapScalarRefs, Written, MapScalar;
      assert WrittenAll(es)[1..] == WrittenAll(es[1..]);
      assert MapScalars(es, g)[1..] == MapScalars(es[1..], g);
    }
  }

  lemma {:induction false} BranchesWritten(branches: seq<(Scalar, Scalar)>, g: int -> int)
    ensures MapItems(WrittenBranches(branches), Total(g)) == WrittenBranches(MapBranches(branches, g))
    decreases branches, 0
  {
    if branches != [] {
      var branch := branches[0];
      assert branch.0 < branch && branch.1 < branch;
      ScalarWritten(branch.0, g);
      ScalarWritten(branch.1, g);
      BranchesWritten(branches[1..], g);
      PairMapped(Written(branch.0), Written(branch.1), Total(g));
      hide MapScalarRefs, Written, MapScalar;
      assert WrittenBranches(branches)[1..] == WrittenBranches(branches[1..]);
      assert MapBranches(branches, g)[1..] == MapBranches(branches[1..], g);
    }
  }

  lemma PairMapped(a: Json, b: Json, f: Renaming)
    ensures MapScalarRefs(Arr([a, b]), f) == Arr([MapScalarRefs(a, f), MapScalarRefs(b, f)])
  {
    MappedArr([a, b], f);
    assert [a, b][1..] == [b] && [b][1..] == [];
    assert MapItems([b], f) == [MapScalarRefs(b, f)];
  }

  lemma OptionWritten(name: string, e: Option<Scalar>, g: int -> int)
    ensures MapField(Field(name, WrittenOption(e)), Total(g)) == Field(name, WrittenOption(MapOption(e, g)))
    decreases e, 2
  {
    if e.Some? {
      ScalarWritten(e.value, g);
      MappedExpr(name, e.value, g);
    }
  }

  // ------------------------------------------------ the planner's own order

  /** The operators the expression reads as the planner lists them: an IN subquery before what its tested expression reads. */
  function OperatorRefs(e: Scalar): seq<int>
    decreases e, 1
  {
    match e
    case Negative(expr, _) => OperatorRefs(expr)
    case Compare(left, _, right, _) => OperatorRefs(left) + OperatorRefs(right)
    case BoolAnd(parts) => OperatorRefsOf(parts)
    case BoolOr(parts) => OperatorRefsOf(parts)
    case Not(expr) => OperatorRefs(expr)
    case IsNull(expr) => OperatorRefs(expr)
    case IsNotNull(expr) => OperatorRefs(expr)
    case Cast(expr, _, _) => OperatorRefs(expr)
    case InList(expr, list, _) => OperatorRefs(expr) + OperatorRefsOf(list)
    case FunctionCall(_, args) => OperatorRefsOf(args)
    case Arithmetic(_, left, right, _) => OperatorRefs(left) + OperatorRefs(right)
    case Case(operand, branches, otherwise) => OptionRefs(operand) + BranchRefs(branches) + OptionRefs(otherwise)
    case PromqlScalarFromVector(node) => [node]
    case ScalarSubquery(node) => [node]
    case Exists(subquery, _) => [subquery]
    case InSubquery(expr, subquery, _) => [subquery] + OperatorRefs(expr)
    case _ => []
  }

  function OperatorRefsOf(es: seq<Scalar>): seq<int>
    decreases es, 0
  {
    if es == [] then [] else OperatorRefs(es[0]) + OperatorRefsOf(es[1..])
  }

  function BranchRefs(branches: seq<(Scalar, Scalar)>): seq<int>
    decreases branches, 0
  {
    if branches == [] then []
    else
      var branch := branches[0];
      assert branch.0 < branch && branch.1 < branch;
      OperatorRefs(branch.0) + OperatorRefs(branch.1) + BranchRefs(branches[1..])
  }

  function OptionRefs(e: Option<Scalar>): seq<int>
    decreases e, 2
  {
    if e.Some? then OperatorRefs(e.value) else []
  }

  /** No IN subquery tests an expression that reads operators of its own. */
  predicate PlainTests(e: Scalar)
    decreases e, 1
  {
    match e
    case Negative(expr, _) => PlainTests(expr)
    case Compare(left, _, right, _) => PlainTests(left) && PlainTests(right)
    case BoolAnd(parts) => AllPlainTests(parts)
    case BoolOr(parts) => AllPlainTests(parts)
    case Not(expr) => PlainTests(expr)
    case IsNull(expr) => PlainTests(expr)
    case IsNotNull(expr) => PlainTests(expr)
    case Cast(expr, _, _) => PlainTests(expr)
    case InList(expr, list, _) => PlainTests(expr) && AllPlainTests(list)
    case FunctionCall(_, args) => AllPlainTests(args)
    case Arithmetic(_, left, right, _) => PlainTests(left) && PlainTests(right)
    case Case(operand, branches, otherwise) =>
      (operand.Some? ==> PlainTests(operand.value)) && BranchTests(branches) && (otherwise.Some? ==> PlainTests(otherwise.value))
    case InSubquery(expr, _, _) => OperatorRefs(expr) == []
    case _ => true
  }

  predicate AllPlainTests(es: seq<Scalar>)
    decreases es, 0
  {
    es == [] || (PlainTests(es[0]) && AllPlainTests(es[1..]))
  }

  predicate BranchTests(branches: seq<(Scalar, Scalar)>)
    decreases branches, 0
  {
    branches == [] ||
    (var branch := branches[0];
     assert branch.0 < branch && branch.1 < branch;
     PlainTests(branch.0) && PlainTests(branch.1) && BranchTests(branches[1..]))
  }

  ghost predicate Distinct(ids: seq<int>) {
    forall i, j :: 0 <= i < j < |ids| ==> ids[i] != ids[j]
  }

  /** One list is a reordering of the other, the same one under `plain`, and of different ids only then. */
  ghost predicate Reordered(a: seq<int>, b: seq<int>, plain: bool) {
    multiset(a) == multiset(b) && (plain ==> a == b) && (Distinct(a) && a == b ==> plain)
  }

  lemma ReorderedParts(a: seq<int>, b: seq<int>, c: seq<int>, d: seq<int>, p: bool, q: bool)
    requires Reordered(a, c, p) && Reordered(b, d, q)
    ensures Reordered(a + b, c + d, p && q)
  {
    assert |a| == |multiset(a)| == |multiset(c)| == |c|;
    if Distinct(a + b) && a + b == c + d {
      DistinctParts(a, b);
      assert (a + b)[..|a|] == a && (c + d)[..|c|] == c;
      assert (a + b)[|a|..] == b && (c + d)[|c|..] == d;
    }
  }

  lemma DistinctParts(a: seq<int>, b: seq<int>)
    requires Distinct(a + b)
    ensures Distinct(a) && Distinct(b)
  {
    forall i, j | 0 <= i < j < |a| ensures a[i] != a[j] { assert (a + b)[i] == a[i] && (a + b)[j] == a[j]; }
    forall i, j | 0 <= i < j < |b| ensures b[i] != b[j] { assert (a + b)[|a| + i] == b[i] && (a + b)[|a| + j] == b[j]; }
  }

  lemma NothingRead()
    ensures Reordered([], [], true) && forall id :: Reordered([id], [id], true)
  {
  }

  /**
   The viewer finds the operators the planner lists; in its order, when they
   differ, exactly unless an IN subquery tests an expression that reads some.
   */
  lemma {:induction false} SameOperators(e: Scalar)
    ensures Reordered(Reads(e), OperatorRefs(e), PlainTests(e))
    decreases e, 1
  {
    hide Reordered;
    NothingRead();
    match e {
      case Negative(expr, _) => SameOperators(expr);
      case Compare(left, _, right, _) =>
        SameOperators(left);
        SameOperators(right);
        ReorderedParts(Reads(left), Reads(right), OperatorRefs(left), OperatorRefs(right), PlainTests(left), PlainTests(right));
      case BoolAnd(parts) => SameInList(parts);
      case BoolOr(parts) => SameInList(parts);
      case Not(expr) => SameOperators(expr);
      case IsNull(expr) => SameOperators(expr);
      case IsNotNull(expr) => SameOperators(expr);
      case Cast(expr, _, _) => SameOperators(expr);
      case InList(expr, list, _) =>
        SameOperators(expr);
        SameInList(list);
        ReorderedParts(Reads(expr), ReadsOf(list), OperatorRefs(expr), OperatorRefsOf(list), PlainTests(expr), AllPlainTests(list));
      case FunctionCall(_, args) => SameInList(args);
      case Arithmetic(_, left, right, _) =>
        SameOperators(left);
        SameOperators(right);
        ReorderedParts(Reads(left), Reads(right), OperatorRefs(left), OperatorRefs(right), PlainTests(left), PlainTests(right));
      case Case(_, _, _) => SameInCase(e);
      case InSubquery(expr, subquery, _) =>
        SameOperators(expr);
        ReorderedMembers(Reads(expr), OperatorRefs(expr), PlainTests(expr));
        Tested(Reads(expr), OperatorRefs(expr), subquery);
      case _ =>
    }
  }

  lemma ReorderedMembers(a: seq<int>, b: seq<int>, plain: bool)
    requires Reordered(a, b, plain)
    ensures multiset(a) == multiset(b)
  {
  }

  lemma Tested(a: seq<int>, b: seq<int>, subquery: int)
    requires multiset(a) == multiset(b)
    ensures Reordered(a + [subquery], [subquery] + b, b == [])
  {
    var tested, first := a + [subquery], [subquery] + b;
    assert |a| == |multiset(a)| == |multiset(b)| == |b|;
    if a != [] { assert tested[0] == a[0] && tested[|a|] == subquery && first[0] == subquery; }
  }

  lemma {:induction false} SameInCase(e: Scalar)
    requires e.Case?
    ensures Reordered(Reads(e), OperatorRefs(e), PlainTests(e))
    decreases e, 0
  {
    SameInOption(e.operand);
    SameInBranches(e.branches);
    SameInOption(e.otherwise);
    hide Reordered;
    var first, last := OptionPlain(e.operand), OptionPlain(e.otherwise);
    ReorderedParts(OptionReads(e.operand), BranchReads(e.branches), OptionRefs(e.operand), BranchRefs(e.branches), first,
                   BranchTests(e.branches));
    ReorderedParts(OptionReads(e.operand) + BranchReads(e.branches), OptionReads(e.otherwise),
                   OptionRefs(e.operand) + BranchRefs(e.branches), OptionRefs(e.otherwise), first && BranchTests(e.branches), last);
  }

  predicate OptionPlain(e: Option<Scalar>) {
    e.Some? ==> PlainTests(e.value)
  }

  lemma SameInOption(e: Option<Scalar>)
    ensures Reordered(OptionReads(e), OptionRefs(e), OptionPlain(e))
    decreases e, 2
  {
    if e.Some? { SameOperators(e.value); }
  }

  lemma {:induction false} SameInList(es: seq<Scalar>)
    ensures Reordered(ReadsOf(es), OperatorRefsOf(es), AllPlainTests(es))
    decreases es, 0
  {
    if es != [] {
      SameOperators(es[0]);
      SameInList(es[1..]);
      ReorderedParts(Reads(es[0]), ReadsOf(es[1..]), OperatorRefs(es[0]), OperatorRefsOf(es[1..]), PlainTests(es[0]), AllPlainTests(es[1..]));
    }
  }

  lemma {:induction false} SameInBranches(branches: seq<(Scalar, Scalar)>)
    ensures Reordered(BranchReads(branches), BranchRefs(branches), BranchTests(branches))
    decreases branches, 0
  {
    if branches != [] {
      var branch := branches[0];
      assert branch.0 < branch && branch.1 < branch;
      SameOperators(branch.0);
      SameOperators(branch.1);
      SameInBranches(branches[1..]);
      hide Reordered, Reads, OperatorRefs, PlainTests;
      ReorderedParts(Reads(branch.0), Reads(branch.1), OperatorRefs(branch.0), OperatorRefs(branch.1), PlainTests(branch.0), PlainTests(branch.1));
      ReorderedParts(Reads(branch.0) + Reads(branch.1), BranchReads(branches[1..]), OperatorRefs(branch.0) + OperatorRefs(branch.1),
                     BranchRefs(branches[1..]), PlainTests(branch.0) && PlainTests(branch.1), BranchTests(branches[1..]));
    }
  }

  /** The two orders do differ. */
  lemma TestedFirst()
    ensures var e := InSubquery(ScalarSubquery(1), 2, Null);
      Reads(e) == [1, 2] && OperatorRefs(e) == [2, 1]
  {
    assert Reads(ScalarSubquery(1)) == [1] && OperatorRefs(ScalarSubquery(1)) == [1];
  }
}
