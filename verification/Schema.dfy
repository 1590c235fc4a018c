/** `schema_for_type` and `schema_for_dataclass` of sovereign/validation.py, and the meaning of the schemas they
    produce. */
module Schemas {
  import opened Errors
  import opened Validation

  datatype Schema = Schema(shape: Shape, nullable: bool)

  datatype Shape =
    | Anything
    | Primitive(name: string)
    | AnyOf(options: seq<Schema>)
    | ArrayOf(item: Schema)
    | MapOf(value: Schema)
    | Record(props: seq<Prop>, required: seq<string>)

  datatype Prop = Prop(name: string, schema: Schema)

  // ---- generation --------------------------------------------------------------------------

  /** The dataclasses a type mentions are numbered below `bound`. */
  predicate RefersBelow(tp: Ty, bound: nat) {
    match tp
    case Model(id) => id < bound
    case Union(args) => forall i :: 0 <= i < |args| ==> RefersBelow(args[i], bound)
    case Items(_, args, _) => forall i :: 0 <= i < |args| ==> RefersBelow(args[i], bound)
    case DictT(args) => forall i :: 0 <= i < |args| ==> RefersBelow(args[i], bound)
    case _ => true
  }

  /** No dataclass refers to itself: the generator, which expands them in place, needs that to come to an end. */
  ghost predicate Nonrecursive(env: Env) {
    forall m, i :: 0 <= m < |env| && 0 <= i < |env[m]| ==> RefersBelow(env[m][i].ty, m)
  }

  function PrimitiveName(tp: Ty): string {
    match tp case IntT => "integer" case FloatT => "number" case BoolT => "boolean" case _ => "string"
  }

  function SchemaFor(tp: Ty, env: Env, bound: nat): Schema
    requires Nonrecursive(env) && RefersBelow(tp, bound) && bound <= |env|
    decreases bound, tp, 1
  {
    match tp
    case AnyT => Schema(Anything, false)
    case Union(args) =>
      var options := OptionSchemas(args, env, bound);
      var out := if |options| > 1 then Schema(AnyOf(options), false)
                 else if options != [] then options[0] else Schema(Anything, false);
      if NoneT in args then out.(nullable := true) else out
    case Items(_, args, _) =>
      Schema(ArrayOf(if args == [] then Schema(Anything, false) else SchemaFor(args[0], env, bound)), false)
    case DictT(args) =>
      Schema(MapOf(if |args| == 2 then SchemaFor(args[1], env, bound) else Schema(Anything, false)), false)
    case Model(id) => Schema(Record(PropsFor(env[id], env, id), RequiredOf(env[id])), false)
    case _ => Schema(Primitive(PrimitiveName(tp)), false)
  }

  /** The alternatives other than `None`. */
  function OptionSchemas(args: seq<Ty>, env: Env, bound: nat): seq<Schema>
    requires Nonrecursive(env) && bound <= |env| && forall i :: 0 <= i < |args| ==> RefersBelow(args[i], bound)
    decreases bound, args, 0
  {
    if args == [] then []
    else (if args[0] == NoneT then [] else [SchemaFor(args[0], env, bound)]) + OptionSchemas(args[1..], env, bound)
  }

  function PropsFor(fields: seq<FieldDef>, env: Env, bound: nat): (r: seq<Prop>)
    requires Nonrecursive(env) && bound < |env| && forall i :: 0 <= i < |fields| ==> RefersBelow(fields[i].ty, bound)
    ensures |r| == |fields|
    ensures forall i :: 0 <= i < |r| ==> r[i] == Prop(fields[i].name, SchemaFor(fields[i].ty, env, bound))
    decreases bound, fields, 2
  {
    if fields == [] then []
    else [PropFor(fields[0], env, bound)] + PropsFor(fields[1..], env, bound)
  }

  function PropFor(field: FieldDef, env: Env, bound: nat): Prop
    requires Nonrecursive(env) && bound < |env| && RefersBelow(field.ty, bound)
    decreases bound, field, 2
  {
    Prop(field.name, SchemaFor(field.ty, env, bound))
  }

  function RequiredOf(fields: seq<FieldDef>): seq<string> {
    if fields == [] then []
    else
      var last := fields[|fields| - 1];
      RequiredOf(fields[..|fields| - 1]) + (if last.default.None? then [last.name] else [])
  }

  /** `schema_for_dataclass` as the loop it is. */
  method SchemaForDataclass(id: nat, env: Env) returns (s: Schema)
    requires Nonrecursive(env) && id < |env|
    ensures s == SchemaFor(Model(id), env, |env|)
  {
    var fields := env[id];
    var props: seq<Prop>, required: seq<string> := [], [];
    for i := 0 to |fields|
      invariant |props| == i
      invariant forall k :: 0 <= k < i ==> props[k] == Prop(fields[k].name, SchemaFor(fields[k].ty, env, id))
      invariant required == RequiredOf(fields[..i])
    {
      var field := fields[i];
      assert fields[..i + 1][..i] == fields[..i];
      props := props + [Prop(field.name, SchemaFor(field.ty, env, id))];
      if field.default.None? {
        required := required + [field.name];
      }
    }
    assert fields[..|fields|] == fields;
    assert props == PropsFor(fields, env, id);
    s := Schema(Record(props, required), false);
  }

  // ---- the meaning of a schema -------------------------------------------------------------

  predicate Has(entries: seq<Entry>, name: string) {
    exists i :: 0 <= i < |entries| && entries[i].key == S(name)
  }

  predicate Described(key: Val, props: seq<Prop>) {
    exists k :: 0 <= k < |props| && key == S(props[k].name)
  }

  /** A JSON value is valid against a schema of the OpenAPI dialect. */
  predicate Accepts(v: Val, s: Schema)
    decreases s, v
  {
    (s.nullable && v == NoneV) ||
    match s.shape
    case Anything => true
    case Primitive(name) =>
      (name == "string" && v.S?) || (name == "integer" && v.I?) ||
      (name == "number" && (v.I? || v.F?)) || (name == "boolean" && v.B?)
    case AnyOf(options) => exists i :: 0 <= i < |options| && Accepts(v, options[i])
    case ArrayOf(item) => v.Coll? && forall i :: 0 <= i < |v.items| ==> Accepts(v.items[i], item)
    case MapOf(value) => v.D? && forall i :: 0 <= i < |v.entries| ==> Accepts(v.entries[i].value, value)
    case Record(props, required) =>
      && v.D?
      && (forall i :: 0 <= i < |v.entries| ==> Described(v.entries[i].key, props))
      && (forall i, k :: 0 <= i < |v.entries| && 0 <= k < |props| && v.entries[i].key == S(props[k].name) ==>
            Accepts(v.entries[i].value, props[k].schema))
      && (forall k :: 0 <= k < |required| ==> Has(v.entries, required[k]))
  }

  /** What a JSON parser produces: arrays are lists, objects have string keys. */
  predicate IsJson(v: Val) {
    match v
    case Coll(kind, items) => kind == ListK && forall i :: 0 <= i < |items| ==> IsJson(items[i])
    case D(entries) => forall i :: 0 <= i < |entries| ==> entries[i].key.S? && EntryIsJson(entries[i])
    case Y(_) => false
    case Obj(_, _) => false
    case _ => true
  }

  predicate EntryIsJson(e: Entry) {
    IsJson(e.value)
  }
}
