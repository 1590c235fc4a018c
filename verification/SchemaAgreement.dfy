/** How the validator and the generated schemas of the same types agree. */
module SchemaAgreement {
  import opened Errors
  import opened Validation
  import opened Schemas
  import Text

  // ---- the types ---------------------------------------------------------------------------

  /** Whatever JSON value is accepted at the type becomes a hashable one. */
  ghost predicate HashesAll(tp: Ty, env: Env, lib: Lib) {
    forall v :: IsJson(v) && Coerce(v, tp, env, lib).Good? ==> Hashable(Coerce(v, tp, env, lib).value)
  }

  /** Every string is accepted as a key. */
  ghost predicate KeysAgree(tp: Ty, env: Env, lib: Lib) {
    forall s :: Coerce(S(s), tp, env, lib).Good? && Hashable(Coerce(S(s), tp, env, lib).value)
  }

  /** Types on which schema and validator agree: no `None` on its own and no bare class; the items of a set are
      hashable, and a dictionary's key type takes every string. */
  ghost predicate Plain(tp: Ty, env: Env, lib: Lib) {
    match tp
    case NoneT => false
    case Bare(_) => false
    case Union(args) =>
      && (exists i :: 0 <= i < |args| && args[i] != NoneT)
      && (forall i :: 0 <= i < |args| ==> args[i] == NoneT || Plain(args[i], env, lib))
    case Items(kind, args, _) =>
      && (args != [] ==> Plain(args[0], env, lib))
      && (kind == SetK || kind == FrozenSetK ==> args != [] && HashesAll(args[0], env, lib))
    case DictT(args) => |args| == 2 ==> KeysAgree(args[0], env, lib) && Plain(args[1], env, lib)
    case _ => true
  }

  ghost predicate PlainEnv(env: Env, lib: Lib) {
    forall m, i :: 0 <= m < |env| && 0 <= i < |env[m]| ==> Plain(env[m][i].ty, env, lib)
  }

  ghost predicate PlainFields(fields: seq<FieldDef>, env: Env, lib: Lib) {
    forall i :: 0 <= i < |fields| ==> Plain(fields[i].ty, env, lib)
  }

  /** Types whose values are hashable by their form. */
  predicate HashType(tp: Ty) {
    match tp
    case Union(args) => forall i :: 0 <= i < |args| ==> HashType(args[i])
    case Items(kind, args, _) => (kind == TupleK || kind == FrozenSetK) && args != [] && HashType(args[0])
    case AnyT => false
    case Bare(_) => false
    case DictT(_) => false
    case Model(_) => false
    case _ => true
  }

  lemma HashTypeHashesAll(tp: Ty, env: Env, lib: Lib)
    requires HashType(tp)
    ensures HashesAll(tp, env, lib)
  {
    forall v | IsJson(v) && Coerce(v, tp, env, lib).Good?
      ensures Hashable(Coerce(v, tp, env, lib).value)
    {
      HashTypeHashes(v, tp, env, lib);
    }
  }

  lemma {:induction false} HashTypeHashes(v: Val, tp: Ty, env: Env, lib: Lib)
    requires HashType(tp) && Coerce(v, tp, env, lib).Good?
    ensures Hashable(Coerce(v, tp, env, lib).value)
    decreases v, tp, 1
  {
    hide CoerceUnion, CoerceAll;
    match tp
    case Union(args) => if !(NoneT in args && v == NoneV) { UnionHashes(v, args, env, lib); }
    case Items(_, args, _) =>
      if v.Coll? { AllHash(v.items, args[0], env, lib); } else { HashTypeHashes(v, args[0], env, lib); }
    case _ =>
  }

  lemma {:induction false} UnionHashes(v: Val, args: seq<Ty>, env: Env, lib: Lib)
    requires (forall i :: 0 <= i < |args| ==> HashType(args[i])) && CoerceUnion(v, args, env, lib).Good?
    ensures Hashable(CoerceUnion(v, args, env, lib).value)
    decreases v, args, 0
  {
    hide Coerce, Hashable;
    if args[0] != NoneT && Coerce(v, args[0], env, lib).Good? {
      HashTypeHashes(v, args[0], env, lib);
    } else {
      UnionHashes(v, args[1..], env, lib);
    }
  }

  lemma {:induction false} AllHash(items: seq<Val>, tp: Ty, env: Env, lib: Lib)
    requires HashType(tp) && CoerceAll(items, tp, env, lib).Good?
    ensures forall x :: x in CoerceAll(items, tp, env, lib).value ==> Hashable(x)
    decreases items, tp, 0
  {
    hide Coerce, Hashable;
    if items == [] {
    } else {
      HashTypeHashes(items[0], tp, env, lib);
      AllHash(items[1..], tp, env, lib);
    }
  }

  lemma StringKeysAgree(tp: Ty, env: Env, lib: Lib)
    requires tp == StrT || tp == AnyT
    ensures KeysAgree(tp, env, lib)
  {
  }

  // ---- the values --------------------------------------------------------------------------

  /** The alternative that decides: the first that does not refuse. */
  ghost predicate Decides(v: Val, args: seq<Ty>, i: int, env: Env, lib: Lib) {
    && 0 <= i < |args| && args[i] != NoneT && Coerce(v, args[i], env, lib) != Invalid
    && (forall j :: 0 <= j < i && args[j] != NoneT ==> Coerce(v, args[j], env, lib) == Invalid)
  }

  /** Every conversion this type asks of this value is one the library can do: no infinite float becomes an
      integer, no integer too large becomes a float, no lone surrogate is encoded. */
  ghost predicate Convertible(v: Val, tp: Ty, env: Env, lib: Lib)
    decreases v, tp
  {
    match tp
    case IntT => !(v.F? && v.f.Infinite?)
    case FloatT => v.I? ==> lib.toFloat(v.i).Some?
    case StrT => v.S? || lib.show(v).Some?
    case BytesT => v.S? ==> lib.encode(v.s).Some?
    case Union(args) =>
      (NoneT in args && v == NoneV) ||
      forall i :: 0 <= i < |args| && Decides(v, args, i, env, lib) ==> Convertible(v, args[i], env, lib)
    case Items(_, args, _) =>
      args != [] ==>
        if v.Coll? then forall i :: 0 <= i < |v.items| ==> Convertible(v.items[i], args[0], env, lib)
        else Convertible(v, args[0], env, lib)
    case DictT(args) =>
      v.D? && |args| == 2 ==> forall i :: 0 <= i < |v.entries| ==> EntryConvertible(v.entries[i], args[1], env, lib)
    case Model(id) =>
      v.D? ==> forall i :: 0 <= i < |FieldsOf(env, id)| ==> GivenConvertible(v.entries, FieldsOf(env, id)[i], env, lib)
    case _ => true
  }

  ghost predicate GivenConvertible(entries: seq<Entry>, field: FieldDef, env: Env, lib: Lib)
    decreases entries, field
  {
    var k := Index(entries, field.name);
    k >= 0 ==> EntryConvertible(entries[k], field.ty, env, lib)
  }

  ghost predicate EntryConvertible(e: Entry, tp: Ty, env: Env, lib: Lib)
    decreases e
  {
    Convertible(e.value, tp, env, lib)
  }

  // ---- what is accepted was convertible ----------------------------------------------------

  lemma {:induction false} GoodIsConvertible(v: Val, tp: Ty, env: Env, lib: Lib)
    requires Coerce(v, tp, env, lib).Good?
    ensures Convertible(v, tp, env, lib)
    decreases v, tp, 1
  {
    hide CoerceUnion, CoerceAll, CoerceEntries, MakeColl, BindFields, Unknown;
    match tp
    case Union(args) =>
      if !(NoneT in args && v == NoneV) {
        forall i | 0 <= i < |args| && Decides(v, args, i, env, lib)
          ensures Convertible(v, args[i], env, lib)
        {
          UnionDecided(v, args, i, env, lib);
          GoodIsConvertible(v, args[i], env, lib);
        }
      }
    case Items(_, args, _) =>
      if args != [] {
        if v.Coll? { AllConvertible(v.items, args[0], env, lib); } else { GoodIsConvertible(v, args[0], env, lib); }
      }
    case DictT(args) => EntriesConvertible(v.entries, args, env, lib, []);
    case Model(id) => GivenAreConvertible(FieldsOf(env, id), v.entries, env, lib);
    case _ =>
  }

  /** The union answers what the deciding alternative answers. */
  lemma {:induction false} UnionDecided(v: Val, args: seq<Ty>, i: nat, env: Env, lib: Lib)
    requires Decides(v, args, i, env, lib)
    ensures CoerceUnion(v, args, env, lib) == Coerce(v, args[i], env, lib)
    decreases i
  {
    hide Coerce;
    if i == 0 {
    } else {
      UnionDecided(v, args[1..], i - 1, env, lib);
    }
  }

  /** Where no alternative decides, the union refuses. */
  lemma {:induction false} UnionUndecided(v: Val, args: seq<Ty>, env: Env, lib: Lib)
    ensures CoerceUnion(v, args, env, lib) == Invalid || exists i :: Decides(v, args, i, env, lib)
  {
    hide Coerce;
    if args == [] {
    } else {
      UnionUndecided(v, args[1..], env, lib);
      if args[0] != NoneT && Coerce(v, args[0], env, lib) != Invalid {
        assert Decides(v, args, 0, env, lib);
      } else if i :| Decides(v, args[1..], i, env, lib) {
        assert Decides(v, args, i + 1, env, lib) by {
          assert forall j :: 0 < j < i + 1 ==> args[j] == args[1..][j - 1];
        }
      }
    }
  }

  lemma {:induction false} AllConvertible(items: seq<Val>, tp: Ty, env: Env, lib: Lib)
    requires CoerceAll(items, tp, env, lib).Good?
    ensures forall i :: 0 <= i < |items| ==> Convertible(items[i], tp, env, lib)
    decreases items, tp, 0
  {
    hide Coerce, Convertible;
    if items == [] {
    } else {
      GoodIsConvertible(items[0], tp, env, lib);
      AllConvertible(items[1..], tp, env, lib);
      assert forall i :: 0 < i < |items| ==> items[i] == items[1..][i - 1];
    }
  }

  lemma {:induction false} ValueConvertible(e: Entry, tp: Ty, env: Env, lib: Lib)
    requires CoerceValue(e, tp, env, lib).Good?
    ensures EntryConvertible(e, tp, env, lib)
    decreases e, 0
  {
    GoodIsConvertible(e.value, tp, env, lib);
  }

  lemma {:induction false} EntriesConvertible(entries: seq<Entry>, args: seq<Ty>, env: Env, lib: Lib, done: seq<Entry>)
    requires CoerceEntries(entries, args, env, lib, done).Good?
    ensures |args| == 2 ==> forall i :: 0 <= i < |entries| ==> EntryConvertible(entries[i], args[1], env, lib)
    decreases entries, args, 0
  {
    hide Convertible, Coerce, Hashable, Put;
    if entries != [] && |args| == 2 {
      ValueConvertible(entries[0], args[1], env, lib);
      var e := CoerceEntry(entries[0], args, env, lib).value;
      EntriesConvertible(entries[1..], args, env, lib, Put(done, e.key, e.value));
      assert forall i :: 0 < i < |entries| ==> entries[i] == entries[1..][i - 1];
    }
  }

  lemma {:induction false} GivenAreConvertible(fields: seq<FieldDef>, entries: seq<Entry>, env: Env, lib: Lib)
    requires BindFields(fields, entries, env, lib).Good?
    ensures forall i :: 0 <= i < |fields| ==> GivenConvertible(entries, fields[i], env, lib)
    decreases entries, fields, 0
  {
    hide Convertible, Coerce;
    if fields == [] {
    } else {
      var k := Index(entries, fields[0].name);
      if k >= 0 {
        ValueConvertible(entries[k], fields[0].ty, env, lib);
      }
      GivenAreConvertible(fields[1..], entries, env, lib);
      assert forall i :: 0 < i < |fields| ==> fields[i] == fields[1..][i - 1];
    }
  }

  // ---- what is convertible does not crash --------------------------------------------------

  /** On plain types the validator raises nothing but a validation error on a convertible JSON value. */
  lemma {:induction false} NoCrash(v: Val, tp: Ty, env: Env, lib: Lib)
    requires IsJson(v) && Plain(tp, env, lib) && PlainEnv(env, lib) && Convertible(v, tp, env, lib)
    ensures !Coerce(v, tp, env, lib).Crashed?
    decreases v, tp, 1
  {
    hide CoerceUnion, CoerceAll, CoerceEntries, BindFields, KeysAgree;
    match tp
    case Union(args) =>
      if !(NoneT in args && v == NoneV) {
        UnionUndecided(v, args, env, lib);
        if i :| Decides(v, args, i, env, lib) {
          UnionDecided(v, args, i, env, lib);
          NoCrash(v, args[i], env, lib);
        }
      }
    case Items(kind, args, _) => ItemsNoCrash(v, kind, args, tp.variadic, env, lib);
    case DictT(args) => if v.D? { EntriesNoCrash(v.entries, args, env, lib, []); }
    case Model(id) => if v.D? { BindNoCrash(FieldsOf(env, id), v.entries, env, lib); }
    case _ => ScalarNoCrash(v, tp, env, lib);
  }

  lemma ScalarNoCrash(v: Val, tp: Ty, env: Env, lib: Lib)
    requires Convertible(v, tp, env, lib) && !tp.Union? && !tp.Items? && !tp.DictT? && !tp.Model?
    ensures !CoerceScalar(v, tp, lib).Crashed?
  {
    hide Text.Trim, Text.Lower;
  }

  lemma {:induction false} ItemsNoCrash(v: Val, kind: Kind, args: seq<Ty>, variadic: bool, env: Env, lib: Lib)
    requires IsJson(v) && PlainEnv(env, lib)
    requires var tp := Items(kind, args, variadic); Plain(tp, env, lib) && Convertible(v, tp, env, lib)
    ensures !Coerce(v, Items(kind, args, variadic), env, lib).Crashed?
    decreases v, args, 2
  {
    hide CoerceAll, Hashable, KeysAgree;
    if args == [] {
    } else {
      var hashes := kind == SetK || kind == FrozenSetK;
      if v.Coll? {
        AllNoCrash(v.items, args[0], env, lib);
        if hashes { AllHashable(v.items, args[0], env, lib); }
      } else {
        NoCrash(v, args[0], env, lib);
      }
    }
  }

  lemma {:induction false} AllHashable(items: seq<Val>, tp: Ty, env: Env, lib: Lib)
    requires (forall i :: 0 <= i < |items| ==> IsJson(items[i])) && HashesAll(tp, env, lib)
    ensures var r := CoerceAll(items, tp, env, lib); r.Good? ==> forall x :: x in r.value ==> Hashable(x)
  {
    hide Coerce, Hashable;
    if items == [] {
    } else {
      AllHashable(items[1..], tp, env, lib);
    }
  }

  lemma {:induction false} AllNoCrash(items: seq<Val>, tp: Ty, env: Env, lib: Lib)
    requires Plain(tp, env, lib) && PlainEnv(env, lib)
    requires forall i :: 0 <= i < |items| ==> IsJson(items[i]) && Convertible(items[i], tp, env, lib)
    ensures !CoerceAll(items, tp, env, lib).Crashed?
    decreases items, tp, 0
  {
    hide Coerce, Convertible, Plain, PlainEnv;
    if items == [] {
    } else {
      NoCrash(items[0], tp, env, lib);
      AllNoCrash(items[1..], tp, env, lib);
    }
  }

  lemma {:induction false} EntryNoCrash(e: Entry, tp: Ty, env: Env, lib: Lib)
    requires EntryIsJson(e) && Plain(tp, env, lib) && PlainEnv(env, lib) && EntryConvertible(e, tp, env, lib)
    ensures !CoerceValue(e, tp, env, lib).Crashed?
    decreases e, 0
  {
    NoCrash(e.value, tp, env, lib);
  }

  /** A string key is taken by a key type that takes every string; what the entry becomes rests with the value. */
  lemma StringKey(e: Entry, args: seq<Ty>, env: Env, lib: Lib)
    requires e.key.S? && (|args| == 2 ==> KeysAgree(args[0], env, lib))
    ensures var v := CoerceValue(e, if |args| == 2 then args[1] else AnyT, env, lib);
            var r := CoerceEntry(e, args, env, lib);
            (r.Good? <==> v.Good?) && (r.Crashed? <==> v.Crashed?)
  {
    hide Coerce;
    if |args| == 2 {
      assert Coerce(S(e.key.s), args[0], env, lib).Good?;
    }
  }

  lemma {:induction false} EntriesNoCrash(entries: seq<Entry>, args: seq<Ty>, env: Env, lib: Lib, done: seq<Entry>)
    requires PlainEnv(env, lib) && forall i :: 0 <= i < |entries| ==> entries[i].key.S? && EntryIsJson(entries[i])
    requires |args| == 2 ==> KeysAgree(args[0], env, lib) && Plain(args[1], env, lib)
    requires |args| == 2 ==> forall i :: 0 <= i < |entries| ==> EntryConvertible(entries[i], args[1], env, lib)
    ensures !CoerceEntries(entries, args, env, lib, done).Crashed?
    decreases entries, args, 0
  {
    hide CoerceEntry, KeysAgree, Convertible, Plain, PlainEnv, EntryIsJson;
    if entries == [] {
    } else {
      var e := entries[0];
      StringKey(e, args, env, lib);
      if |args| == 2 { EntryNoCrash(e, args[1], env, lib); } else { AnyValue(e, env, lib); }
      var r := CoerceEntry(e, args, env, lib);
      if r.Good? {
        EntriesNoCrash(entries[1..], args, env, lib, Put(done, r.value.key, r.value.value));
      }
    }
  }

  lemma AnyValue(e: Entry, env: Env, lib: Lib)
    ensures CoerceValue(e, AnyT, env, lib) == Good(e.value)
  {
  }

  lemma {:induction false} BindNoCrash(fields: seq<FieldDef>, entries: seq<Entry>, env: Env, lib: Lib)
    requires PlainEnv(env, lib) && PlainFields(fields, env, lib)
    requires forall i :: 0 <= i < |entries| ==> EntryIsJson(entries[i])
    requires forall i :: 0 <= i < |fields| ==> GivenConvertible(entries, fields[i], env, lib)
    ensures !BindFields(fields, entries, env, lib).Crashed?
    decreases entries, fields, 0
  {
    hide Coerce, Convertible, Plain, PlainEnv, EntryIsJson;
    if fields == [] {
    } else {
      var k := Index(entries, fields[0].name);
      assert GivenConvertible(entries, fields[0], env, lib);
      if k >= 0 {
        EntryNoCrash(entries[k], fields[0].ty, env, lib);
      }
      BindNoCrash(fields[1..], entries, env, lib);
    }
  }

  // ---- what is valid is not refused --------------------------------------------------------

  /** A JSON value valid against the schema of a plain type is never refused by the validator. */
  lemma {:induction false} NeverRefused(v: Val, tp: Ty, env: Env, lib: Lib, bound: nat)
    requires Nonrecursive(env) && PlainEnv(env, lib) && RefersBelow(tp, bound) && bound <= |env|
    requires IsJson(v) && Plain(tp, env, lib) && Accepts(v, SchemaFor(tp, env, bound))
    ensures Coerce(v, tp, env, lib) != Invalid
    decreases v, tp, 1
  {
    hide CoerceScalar, CoerceUnion, CoerceAll, CoerceEntries, KeysAgree, HashesAll;
    match tp
    case Union(args) => UnionNotRefused(v, args, env, lib, bound);
    case Items(_, args, _) =>
      if args != [] {
        AllNotRefused(v.items, args[0], env, lib, bound);
      }
    case DictT(args) => EntriesNotRefused(v.entries, args, env, lib, bound, []);
    case Model(id) => ModelNotRefused(v.entries, id, env, lib);
    case _ => ScalarNotRefused(v, tp, env, lib);
  }

  lemma ScalarNotRefused(v: Val, tp: Ty, env: Env, lib: Lib)
    requires Plain(tp, env, lib) && !tp.Union? && !tp.Items? && !tp.DictT? && !tp.Model?
    requires tp == AnyT || Accepts(v, Schema(Primitive(PrimitiveName(tp)), false))
    ensures CoerceScalar(v, tp, lib) != Invalid
  {
    hide Text.Trim, Text.Lower;
  }

  lemma {:induction false} UnionNotRefused(v: Val, args: seq<Ty>, env: Env, lib: Lib, bound: nat)
    requires Nonrecursive(env) && PlainEnv(env, lib) && RefersBelow(Union(args), bound) && bound <= |env|
    requires IsJson(v) && Plain(Union(args), env, lib) && Accepts(v, SchemaFor(Union(args), env, bound))
    ensures Coerce(v, Union(args), env, lib) != Invalid
    decreases v, args, 2
  {
    hide CoerceUnion, PlainEnv;
    if !(NoneT in args && v == NoneV) {
      var options := OptionSchemas(args, env, bound);
      OptionsNotEmpty(args, env, bound);
      var k := 0;
      if |options| > 1 {
        var s := SchemaFor(Union(args), env, bound);
        assert s.shape == AnyOf(options);
        k :| 0 <= k < |options| && Accepts(v, options[k]);
      } else {
        NullableOnly(v, options[0]);
      }
      SomeOptionAccepts(v, args, env, lib, bound, options[k]);
    }
  }

  lemma NullableOnly(v: Val, s: Schema)
    ensures v != NoneV ==> Accepts(v, s.(nullable := true)) == Accepts(v, s)
  {
    var t := s.(nullable := true);
    match s.shape
    case AnyOf(options) => assert t.shape == AnyOf(options);
    case ArrayOf(item) => assert t.shape == ArrayOf(item);
    case MapOf(value) => assert t.shape == MapOf(value);
    case Record(props, required) => assert t.shape == Record(props, required);
    case _ =>
  }

  lemma {:induction false} OptionsNotEmpty(args: seq<Ty>, env: Env, bound: nat)
    requires Nonrecursive(env) && bound <= |env| && forall i :: 0 <= i < |args| ==> RefersBelow(args[i], bound)
    requires exists i :: 0 <= i < |args| && args[i] != NoneT
    ensures OptionSchemas(args, env, bound) != []
  {
    if args[0] == NoneT {
      var i :| 0 <= i < |args| && args[i] != NoneT;
      assert args[1..][i - 1] != NoneT;
      OptionsNotEmpty(args[1..], env, bound);
    }
  }

  /** If one alternative's schema accepts, the union does not refuse: earlier alternatives can only
      decide first. */
  lemma {:induction false} SomeOptionAccepts(v: Val, args: seq<Ty>, env: Env, lib: Lib, bound: nat, o: Schema)
    requires Nonrecursive(env) && PlainEnv(env, lib) && bound <= |env| && IsJson(v)
    requires forall i :: 0 <= i < |args| ==>
               RefersBelow(args[i], bound) && (args[i] == NoneT || Plain(args[i], env, lib))
    requires o in OptionSchemas(args, env, bound) && Accepts(v, o)
    ensures CoerceUnion(v, args, env, lib) != Invalid
    decreases v, args, 0
  {
    if args[0] == NoneT {
      SomeOptionAccepts(v, args[1..], env, lib, bound, o);
    } else {
      if o == SchemaFor(args[0], env, bound) {
        NeverRefused(v, args[0], env, lib, bound);
      } else {
        SomeOptionAccepts(v, args[1..], env, lib, bound, o);
      }
    }
  }

  lemma {:induction false} AllNotRefused(items: seq<Val>, tp: Ty, env: Env, lib: Lib, bound: nat)
    requires Nonrecursive(env) && PlainEnv(env, lib) && RefersBelow(tp, bound) && bound <= |env| && Plain(tp, env, lib)
    requires forall i :: 0 <= i < |items| ==> IsJson(items[i]) && Accepts(items[i], SchemaFor(tp, env, bound))
    ensures CoerceAll(items, tp, env, lib) != Invalid
    decreases items, tp, 0
  {
    hide Coerce, Accepts, Plain, PlainEnv;
    if items == [] {
    } else {
      NeverRefused(items[0], tp, env, lib, bound);
      AllNotRefused(items[1..], tp, env, lib, bound);
    }
  }

  lemma {:induction false} EntryNotRefused(e: Entry, tp: Ty, env: Env, lib: Lib, bound: nat)
    requires Nonrecursive(env) && PlainEnv(env, lib) && RefersBelow(tp, bound) && bound <= |env| && Plain(tp, env, lib)
    requires EntryIsJson(e) && Accepts(e.value, SchemaFor(tp, env, bound))
    ensures CoerceValue(e, tp, env, lib) != Invalid
    decreases e, 0
  {
    NeverRefused(e.value, tp, env, lib, bound);
  }

  lemma {:induction false} EntriesNotRefused(entries: seq<Entry>, args: seq<Ty>, env: Env, lib: Lib, bound: nat,
                                             done: seq<Entry>)
    requires Nonrecursive(env) && PlainEnv(env, lib) && bound <= |env|
    requires RefersBelow(DictT(args), bound) && Plain(DictT(args), env, lib)
    requires forall i :: 0 <= i < |entries| ==> entries[i].key.S? && EntryIsJson(entries[i])
    requires |args| == 2 ==>
               forall i :: 0 <= i < |entries| ==> Accepts(entries[i].value, SchemaFor(args[1], env, bound))
    ensures CoerceEntries(entries, args, env, lib, done) != Invalid
    decreases entries, args, 0
  {
    hide CoerceEntry, Accepts, KeysAgree, PlainEnv, EntryIsJson;
    if entries == [] {
    } else {
      var e := entries[0];
      StringKey(e, args, env, lib);
      if |args| == 2 { EntryNotRefused(e, args[1], env, lib, bound); } else { AnyValue(e, env, lib); }
      var r := CoerceEntry(e, args, env, lib);
      if r.Good? {
        EntriesNotRefused(entries[1..], args, env, lib, bound, Put(done, r.value.key, r.value.value));
      }
    }
  }

  lemma {:induction false} ModelNotRefused(entries: seq<Entry>, id: nat, env: Env, lib: Lib)
    requires Nonrecursive(env) && PlainEnv(env, lib) && id < |env|
    requires IsJson(D(entries))
    requires Accepts(D(entries), Schema(Record(PropsFor(env[id], env, id), RequiredOf(env[id])), false))
    ensures Validated(id, entries, env, lib) != Invalid
    decreases entries, env[id], 1
  {
    hide Accepts, SchemaFor, BindFields;
    var fields := env[id];
    RecordParts(D(entries), PropsFor(fields, env, id), RequiredOf(fields));
    KeysKnown(entries, fields, env, id);
    forall k | 0 <= k < |fields|
      ensures FieldGiven(fields[k], entries, env, id)
    {
      if fields[k].default.None? {
        RequiredHas(fields, k);
      }
    }
    FieldsNotRefused(fields, entries, env, lib, id);
  }

  lemma RecordParts(v: Val, props: seq<Prop>, required: seq<string>)
    requires v.D? && Accepts(v, Schema(Record(props, required), false))
    ensures forall i :: 0 <= i < |v.entries| ==> Described(v.entries[i].key, props)
    ensures forall i, k :: 0 <= i < |v.entries| && 0 <= k < |props| && v.entries[i].key == S(props[k].name) ==>
              Accepts(v.entries[i].value, props[k].schema)
    ensures forall name :: name in required ==> Has(v.entries, name)
  {
  }

  lemma KeysKnown(entries: seq<Entry>, fields: seq<FieldDef>, env: Env, bound: nat)
    requires Nonrecursive(env) && bound < |env| && forall i :: 0 <= i < |fields| ==> RefersBelow(fields[i].ty, bound)
    requires forall i :: 0 <= i < |entries| ==> Described(entries[i].key, PropsFor(fields, env, bound))
    ensures Unknown(entries, fields) == Good(())
  {
    hide SchemaFor;
    var props := PropsFor(fields, env, bound);
    forall i | 0 <= i < |entries|
      ensures Known(entries[i].key, fields)
    {
      assert Described(entries[i].key, props);
      var k :| 0 <= k < |props| && entries[i].key == S(props[k].name);
      assert entries[i].key == S(fields[k].name);
    }
  }

  lemma {:induction false} RequiredHas(fields: seq<FieldDef>, k: nat)
    requires k < |fields| && fields[k].default.None?
    ensures fields[k].name in RequiredOf(fields)
  {
    if k < |fields| - 1 {
      RequiredHas(fields[..|fields| - 1], k);
    }
  }

  /** The field's value is valid, or missing where that is allowed. */
  ghost predicate FieldGiven(field: FieldDef, entries: seq<Entry>, env: Env, bound: nat)
    requires Nonrecursive(env) && bound < |env|
  {
    && RefersBelow(field.ty, bound)
    && (forall i :: 0 <= i < |entries| && entries[i].key == S(field.name) ==>
          Accepts(entries[i].value, SchemaFor(field.ty, env, bound)))
    && (Has(entries, field.name) || field.default.Some?)
  }

  lemma {:induction false} FieldsNotRefused(fields: seq<FieldDef>, entries: seq<Entry>, env: Env, lib: Lib, bound: nat)
    requires Nonrecursive(env) && PlainEnv(env, lib) && bound < |env| && PlainFields(fields, env, lib)
    requires forall k :: 0 <= k < |fields| ==> FieldGiven(fields[k], entries, env, bound)
    requires forall i :: 0 <= i < |entries| ==> EntryIsJson(entries[i])
    ensures BindFields(fields, entries, env, lib) != Invalid
    decreases entries, fields, 0
  {
    hide Accepts;
    if fields == [] {
    } else {
      var k := Index(entries, fields[0].name);
      assert FieldGiven(fields[0], entries, env, bound);
      if k >= 0 {
        EntryNotRefused(entries[k], fields[0].ty, env, lib, bound);
      }
      FieldsNotRefused(fields[1..], entries, env, lib, bound);
    }
  }

  // ---- agreement ---------------------------------------------------------------------------

  /** The value is valid against the schema generated for the plain type. */
  ghost predicate Valid(v: Val, tp: Ty, env: Env, lib: Lib, bound: nat) {
    && Nonrecursive(env) && PlainEnv(env, lib) && RefersBelow(tp, bound) && bound <= |env|
    && IsJson(v) && Plain(tp, env, lib) && Accepts(v, SchemaFor(tp, env, bound))
  }

  /** A JSON value valid against the schema of a plain type is accepted by the validator at that type if and only
      if the conversions it needs are possible; if they are not, the validator crashes. */
  lemma Agreement(v: Val, tp: Ty, env: Env, lib: Lib, bound: nat)
    requires Valid(v, tp, env, lib, bound)
    ensures Coerce(v, tp, env, lib).Good? <==> Convertible(v, tp, env, lib)
    ensures Coerce(v, tp, env, lib).Crashed? <==> !Convertible(v, tp, env, lib)
  {
    hide Coerce, Convertible, Plain, PlainEnv, Accepts;
    NeverRefused(v, tp, env, lib, bound);
    if Coerce(v, tp, env, lib).Good? {
      GoodIsConvertible(v, tp, env, lib);
    }
    if Convertible(v, tp, env, lib) {
      NoCrash(v, tp, env, lib);
    }
  }
}
