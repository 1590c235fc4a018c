/** What the generated schemas mean: an equivalence, by recursion on types, in which no schema occurs. */
module SchemaMeaning {
  import opened Errors
  import opened Validation
  import opened Schemas
  import SchemaAgreement

  /** The values the type describes to a client. `None` on its own and a bare class are described as strings, key
      types and the sizes of tuples not at all. */
  ghost predicate Describes(v: Val, tp: Ty, env: Env)
    decreases v, tp
  {
    match tp
    case AnyT => true
    case BoolT => v.B?
    case IntT => v.I?
    case FloatT => v.I? || v.F?
    case StrT => v.S?
    case BytesT => v.S?
    case NoneT => v.S?
    case Bare(_) => v.S?
    case Union(args) =>
      || (NoneT in args && v == NoneV)
      || (forall i :: 0 <= i < |args| ==> args[i] == NoneT)
      || (exists i :: 0 <= i < |args| && args[i] != NoneT && Describes(v, args[i], env))
    case Items(_, args, _) =>
      v.Coll? && (args == [] || forall i :: 0 <= i < |v.items| ==> Describes(v.items[i], args[0], env))
    case DictT(args) =>
      v.D? && (|args| != 2 || forall i :: 0 <= i < |v.entries| ==> Describes(v.entries[i].value, args[1], env))
    case Model(id) =>
      var fields := FieldsOf(env, id);
      && v.D?
      && (forall i :: 0 <= i < |v.entries| ==> Known(v.entries[i].key, fields))
      && (forall i, k :: 0 <= i < |v.entries| && 0 <= k < |fields| && v.entries[i].key == S(fields[k].name) ==>
            Describes(v.entries[i].value, fields[k].ty, env))
      && (forall k :: 0 <= k < |fields| && fields[k].default.None? ==> Has(v.entries, fields[k].name))
  }

  /** A value is valid against the schema generated for a type exactly when the type describes it. */
  lemma {:induction false} SchemaExactly(v: Val, tp: Ty, env: Env, bound: nat)
    requires Nonrecursive(env) && RefersBelow(tp, bound) && bound <= |env|
    ensures Accepts(v, SchemaFor(tp, env, bound)) <==> Describes(v, tp, env)
    decreases v, tp
  {
    hide SchemaFor, Accepts, Describes;
    match tp
    case Union(args) => UnionExactly(v, args, env, bound);
    case Items(_, _, _) => ItemsExactly(v, tp, env, bound);
    case DictT(args) => DictExactly(v, args, env, bound);
    case Model(id) => ModelExactly(v, id, env, bound);
    case _ => ScalarExactly(v, tp, env, bound);
  }

  lemma ScalarExactly(v: Val, tp: Ty, env: Env, bound: nat)
    requires Nonrecursive(env) && bound <= |env| && !tp.Union? && !tp.Items? && !tp.DictT? && !tp.Model?
    ensures Accepts(v, SchemaFor(tp, env, bound)) <==> Describes(v, tp, env)
  {
  }

  lemma {:induction false} ItemsExactly(v: Val, tp: Ty, env: Env, bound: nat)
    requires Nonrecursive(env) && tp.Items? && RefersBelow(tp, bound) && bound <= |env|
    ensures Accepts(v, SchemaFor(tp, env, bound)) <==> Describes(v, tp, env)
    decreases v, tp, 0
  {
    var item := if tp.args == [] then Schema(Anything, false) else SchemaFor(tp.args[0], env, bound);
    assert SchemaFor(tp, env, bound) == Schema(ArrayOf(item), false);
    if v.Coll? && tp.args != [] {
      forall i | 0 <= i < |v.items|
        ensures Accepts(v.items[i], item) <==> Describes(v.items[i], tp.args[0], env)
      {
        SchemaExactly(v.items[i], tp.args[0], env, bound);
      }
    }
    ArrayAccepts(v, item);
    hide SchemaFor;
  }

  lemma ArrayAccepts(v: Val, item: Schema)
    ensures Accepts(v, Schema(ArrayOf(item), false)) <==>
            v.Coll? && forall i :: 0 <= i < |v.items| ==> Accepts(v.items[i], item)
    ensures Accepts(v, Schema(MapOf(item), false)) <==>
            v.D? && forall i :: 0 <= i < |v.entries| ==> Accepts(v.entries[i].value, item)
  {
    assert Schema(ArrayOf(item), false).shape == ArrayOf(item) && Schema(MapOf(item), false).shape == MapOf(item);
  }

  lemma {:induction false} DictExactly(v: Val, args: seq<Ty>, env: Env, bound: nat)
    requires Nonrecursive(env) && RefersBelow(DictT(args), bound) && bound <= |env|
    ensures Accepts(v, SchemaFor(DictT(args), env, bound)) <==> Describes(v, DictT(args), env)
    decreases v, DictT(args), 0
  {
    var value := if |args| == 2 then SchemaFor(args[1], env, bound) else Schema(Anything, false);
    assert SchemaFor(DictT(args), env, bound) == Schema(MapOf(value), false);
    if v.D? && |args| == 2 {
      forall i | 0 <= i < |v.entries|
        ensures Accepts(v.entries[i].value, value) <==> Describes(v.entries[i].value, args[1], env)
      {
        SchemaExactly(v.entries[i].value, args[1], env, bound);
      }
    }
    ArrayAccepts(v, value);
    hide SchemaFor;
  }

  lemma {:induction false} UnionExactly(v: Val, args: seq<Ty>, env: Env, bound: nat)
    requires Nonrecursive(env) && RefersBelow(Union(args), bound) && bound <= |env|
    ensures Accepts(v, SchemaFor(Union(args), env, bound)) <==> Describes(v, Union(args), env)
    decreases v, Union(args), 0
  {
    hide Describes, Accepts, SchemaFor, OptionSchemas;
    forall i | 0 <= i < |args|
      ensures Accepts(v, SchemaFor(args[i], env, bound)) <==> Describes(v, args[i], env)
    {
      SchemaExactly(v, args[i], env, bound);
    }
    OptionsAre(args, env, bound);
    UnionSchema(args, env, bound);
    UnionDescribes(v, args, env);
    var options := OptionSchemas(args, env, bound);
    SomeOption(v, args, options, env, bound);
    UnionAccepts(v, options, NoneT in args);
  }

  function Combined(options: seq<Schema>, nullable: bool): Schema {
    var out := if |options| > 1 then Schema(AnyOf(options), false)
               else if options != [] then options[0] else Schema(Anything, false);
    if nullable then out.(nullable := true) else out
  }

  lemma UnionSchema(args: seq<Ty>, env: Env, bound: nat)
    requires Nonrecursive(env) && RefersBelow(Union(args), bound) && bound <= |env|
    ensures SchemaFor(Union(args), env, bound) == Combined(OptionSchemas(args, env, bound), NoneT in args)
  {
  }

  lemma SomeOption(v: Val, args: seq<Ty>, options: seq<Schema>, env: Env, bound: nat)
    requires Nonrecursive(env) && RefersBelow(Union(args), bound) && bound <= |env|
    requires forall i :: 0 <= i < |args| ==>
               (Accepts(v, SchemaFor(args[i], env, bound)) <==> Describes(v, args[i], env))
    requires forall i :: 0 <= i < |args| && args[i] != NoneT ==> SchemaFor(args[i], env, bound) in options
    requires forall o :: o in options ==>
               exists i :: 0 <= i < |args| && args[i] != NoneT && o == SchemaFor(args[i], env, bound)
    ensures (exists o :: o in options && Accepts(v, o)) <==>
            exists i :: 0 <= i < |args| && args[i] != NoneT && Describes(v, args[i], env)
    ensures options == [] <==> forall i :: 0 <= i < |args| ==> args[i] == NoneT
  {
    hide Describes, Accepts, SchemaFor;
    if options != [] {
      assert options[0] in options;
    }
  }

  /** The combined schema takes what one of the options takes, everything if there is none, and null if told so. */
  lemma UnionAccepts(v: Val, options: seq<Schema>, nullable: bool)
    ensures Accepts(v, Combined(options, nullable)) <==>
            (nullable && v == NoneV) || options == [] || exists o :: o in options && Accepts(v, o)
  {
    var plain := Combined(options, false);
    OneOf(v, options);
    SchemaAgreement.NullableOnly(v, plain);
    NullAccepted(v, plain);
    hide Accepts;
    if |options| == 1 {
      assert forall o :: o in options <==> o == options[0];
    }
  }

  lemma UnionDescribes(v: Val, args: seq<Ty>, env: Env)
    ensures Describes(v, Union(args), env) <==>
            || (NoneT in args && v == NoneV)
            || (forall i :: 0 <= i < |args| ==> args[i] == NoneT)
            || (exists i :: 0 <= i < |args| && args[i] != NoneT && Describes(v, args[i], env))
  {
  }

  lemma OneOf(v: Val, options: seq<Schema>)
    ensures Accepts(v, Schema(AnyOf(options), false)) <==> exists o :: o in options && Accepts(v, o)
    ensures Accepts(v, Schema(Anything, false))
  {
    var s := Schema(AnyOf(options), false);
    assert s.shape == AnyOf(options);
    forall o | o in options && Accepts(v, o)
      ensures Accepts(v, s)
    {
      var k :| 0 <= k < |options| && options[k] == o;
    }
    if Accepts(v, s) {
      var k :| 0 <= k < |options| && Accepts(v, options[k]);
      assert options[k] in options;
    }
  }

  lemma NullAccepted(v: Val, s: Schema)
    ensures v == NoneV ==> Accepts(v, s.(nullable := true))
  {
  }

  /** The schemas of a union are those of its alternatives other than `None`. */
  lemma {:induction false} OptionsAre(args: seq<Ty>, env: Env, bound: nat)
    requires Nonrecursive(env) && bound <= |env| && forall i :: 0 <= i < |args| ==> RefersBelow(args[i], bound)
    ensures var options := OptionSchemas(args, env, bound);
            && (forall i :: 0 <= i < |args| && args[i] != NoneT ==> SchemaFor(args[i], env, bound) in options)
            && (forall o :: o in options ==>
                exists i :: 0 <= i < |args| && args[i] != NoneT && o == SchemaFor(args[i], env, bound))
  {
    hide SchemaFor;
    if args == [] {
    } else {
      OptionsAre(args[1..], env, bound);
      var rest := OptionSchemas(args[1..], env, bound);
      assert forall i :: 1 <= i < |args| ==> args[i] == args[1..][i - 1];
      forall o | o in rest
        ensures exists i :: 0 <= i < |args| && args[i] != NoneT && o == SchemaFor(args[i], env, bound)
      {
        var i :| 0 <= i < |args[1..]| && args[1..][i] != NoneT && o == SchemaFor(args[1..][i], env, bound);
        assert args[i + 1] == args[1..][i];
      }
    }
  }

  lemma {:induction false} ModelExactly(v: Val, id: nat, env: Env, bound: nat)
    requires Nonrecursive(env) && id < bound <= |env|
    ensures Accepts(v, SchemaFor(Model(id), env, bound)) <==> Describes(v, Model(id), env)
    decreases v, Model(id), 0
  {
    hide Accepts, Describes, SchemaFor, Known, Described, RequiredOf;
    var fields := env[id];
    var props, required := PropsFor(fields, env, id), RequiredOf(fields);
    ModelSchema(id, env, bound);
    RequiredExactly(fields);
    RecordAccepts(v, props, required);
    ModelDescribes(v, id, env);
    if v.D? {
      forall i, k | 0 <= i < |v.entries| && 0 <= k < |fields|
        ensures Accepts(v.entries[i].value, props[k].schema) <==> Describes(v.entries[i].value, fields[k].ty, env)
      {
        SchemaExactly(v.entries[i].value, fields[k].ty, env, id);
      }
      forall i | 0 <= i < |v.entries|
        ensures Described(v.entries[i].key, props) <==> Known(v.entries[i].key, fields)
      {
        DescribedIsKnown(v.entries[i].key, fields, props);
      }
    }
  }

  lemma ModelSchema(id: nat, env: Env, bound: nat)
    requires Nonrecursive(env) && id < bound <= |env|
    ensures SchemaFor(Model(id), env, bound)
         == Schema(Record(PropsFor(env[id], env, id), RequiredOf(env[id])), false)
  {
  }

  lemma RecordAccepts(v: Val, props: seq<Prop>, required: seq<string>)
    ensures Accepts(v, Schema(Record(props, required), false)) <==>
            && v.D?
            && (forall i :: 0 <= i < |v.entries| ==> Described(v.entries[i].key, props))
            && (forall i, k :: 0 <= i < |v.entries| && 0 <= k < |props| && v.entries[i].key == S(props[k].name) ==>
                  Accepts(v.entries[i].value, props[k].schema))
            && (forall name :: name in required ==> Has(v.entries, name))
  {
    assert Schema(Record(props, required), false).shape == Record(props, required);
  }

  lemma ModelDescribes(v: Val, id: nat, env: Env)
    requires id < |env|
    ensures Describes(v, Model(id), env) <==>
            && v.D?
            && (forall i :: 0 <= i < |v.entries| ==> Known(v.entries[i].key, env[id]))
            && (forall i, k :: 0 <= i < |v.entries| && 0 <= k < |env[id]| && v.entries[i].key == S(env[id][k].name) ==>
                  Describes(v.entries[i].value, env[id][k].ty, env))
            && (forall k :: 0 <= k < |env[id]| && env[id][k].default.None? ==> Has(v.entries, env[id][k].name))
  {
  }

  lemma DescribedIsKnown(key: Val, fields: seq<FieldDef>, props: seq<Prop>)
    requires |props| == |fields| && forall k :: 0 <= k < |fields| ==> props[k].name == fields[k].name
    ensures Described(key, props) <==> Known(key, fields)
  {
  }

  /** Required are exactly the fields without a default. */
  lemma {:induction false} RequiredExactly(fields: seq<FieldDef>)
    ensures forall name :: name in RequiredOf(fields) <==>
              exists k :: 0 <= k < |fields| && fields[k].default.None? && fields[k].name == name
  {
    if fields == [] {
    } else {
      var init := fields[..|fields| - 1];
      RequiredExactly(init);
      assert forall k :: 0 <= k < |init| ==> init[k] == fields[k];
    }
  }
}
