/** `coerce_value` and `validate_model` of sovereign/validation.py: a validator directed by type annotations,
    recursive through dataclasses. Number parsing and conversion, `str()` and `encode()` are parameters; finite
    floats are reals. */
module Validation {
  import opened Errors
  import Text

  datatype Kind = ListK | TupleK | SetK | FrozenSetK

  /** Type annotations. `Items` is a parametrised collection (for a tuple, `variadic` means `tuple[T, ...]`);
      `Bare` is the class without parameters; `Model` names a dataclass of the environment. */
  datatype Ty =
    | AnyT | NoneT | BoolT | IntT | FloatT | StrT | BytesT
    | Bare(kind: Kind)
    | Union(args: seq<Ty>)
    | Items(kind: Kind, args: seq<Ty>, variadic: bool)
    | DictT(args: seq<Ty>)
    | Model(id: nat)

  datatype Float = Finite(r: real) | Infinite(negative: bool) | NotANumber

  datatype Val =
    | NoneV | B(b: bool) | I(i: int) | F(f: Float) | S(s: string) | Y(bytes: string)
    | Coll(kind: Kind, items: seq<Val>)
    | D(entries: seq<Entry>)
    | Obj(id: nat, values: seq<Bound>)

  datatype Entry = Entry(key: Val, value: Val)

  datatype Bound = Bound(name: string, value: Val)

  datatype FieldDef = FieldDef(name: string, ty: Ty, default: Option<Val>)

  /** The dataclasses, by number. They may refer to each other and to themselves. */
  type Env = seq<seq<FieldDef>>

  function FieldsOf(env: Env, id: nat): seq<FieldDef> {
    if id < |env| then env[id] else []
  }

  /** The conversions of the library. `parseInt` and `parseFloat` refuse with `ValueError`, which the validator
      expects. It does not expect the others to fail: an integer can be too large for a float, a string can hold
      a lone surrogate, an integer can have too many digits to be shown. */
  datatype Lib = Lib(
    parseInt: string -> Option<int>,
    parseFloat: string -> Option<Float>,
    toFloat: int -> Option<real>,
    show: Val -> Option<string>,
    encode: string -> Option<string>)

  /** `Crashed` is an exception other than `ValidationError`. */
  datatype Res<T> = Good(value: T) | Invalid | Crashed

  // ---- scalars -----------------------------------------------------------------------------

  function Truncate(r: real): int {
    if r >= 0.0 then r.Floor else -((-r).Floor)
  }

  function ToInt(v: Val, lib: Lib): Res<Val> {
    match v
    case I(_) => Good(v)
    case F(Finite(r)) => Good(I(Truncate(r)))
    case F(Infinite(_)) => Crashed              // OverflowError
    case F(NotANumber) => Invalid
    case S(s) => (match lib.parseInt(s) case Some(i) => Good(I(i)) case None => Invalid)
    case Y(s) => (match lib.parseInt(s) case Some(i) => Good(I(i)) case None => Invalid)
    case _ => Invalid
  }

  function ToFloat(v: Val, lib: Lib): Res<Val> {
    match v
    case I(i) => (match lib.toFloat(i) case Some(r) => Good(F(Finite(r))) case None => Crashed)
    case F(_) => Good(v)
    case S(s) => (match lib.parseFloat(s) case Some(f) => Good(F(f)) case None => Invalid)
    case Y(s) => (match lib.parseFloat(s) case Some(f) => Good(F(f)) case None => Invalid)
    case _ => Invalid
  }

  function ToBool(v: Val): Res<Val> {
    match v
    case B(_) => Good(v)
    case S(s) =>
      var lowered := Text.Lower(Text.Trim(s));
      if lowered == "1" || lowered == "true" || lowered == "yes" || lowered == "on" then Good(B(true))
      else if lowered == "0" || lowered == "false" || lowered == "no" || lowered == "off" then Good(B(false))
      else Invalid
    case _ => Invalid
  }

  function ToStr(v: Val, lib: Lib): Res<Val> {
    if v.S? then Good(v)
    else match lib.show(v) case Some(s) => Good(S(s)) case None => Crashed
  }

  function ToBytes(v: Val, lib: Lib): Res<Val> {
    match v
    case Y(_) => Good(v)
    case S(s) => (match lib.encode(s) case Some(b) => Good(Y(b)) case None => Crashed)
    case _ => Invalid
  }

  function CoerceScalar(v: Val, tp: Ty, lib: Lib): Res<Val> {
    match tp
    case BoolT => ToBool(v)
    case IntT => if v.B? then Invalid else ToInt(v, lib)
    case FloatT => if v.B? then Invalid else ToFloat(v, lib)
    case StrT => ToStr(v, lib)
    case BytesT => ToBytes(v, lib)
    case NoneT => if v.NoneV? then Good(v) else Invalid
    case Bare(kind) => if v.Coll? && v.kind == kind then Good(v) else Invalid
    case _ => Good(v)
  }

  // ---- coercion ----------------------------------------------------------------------------

  predicate Hashable(v: Val) {
    match v
    case Coll(kind, items) =>
      (kind == TupleK || kind == FrozenSetK) && forall i :: 0 <= i < |items| ==> Hashable(items[i])
    case D(_) => false
    case Obj(_, _) => false
    case _ => true
  }

  function MakeColl(kind: Kind, items: seq<Val>): Res<Val> {
    if (kind == SetK || kind == FrozenSetK) && exists i :: 0 <= i < |items| && !Hashable(items[i]) then Crashed
    else Good(Coll(kind, items))
  }

  /** `d[key] = value` on an ordered dictionary. */
  function Put(entries: seq<Entry>, key: Val, value: Val): seq<Entry> {
    if entries == [] then [Entry(key, value)]
    else if entries[0].key == key then [Entry(key, value)] + entries[1..]
    else [entries[0]] + Put(entries[1..], key, value)
  }

  /** Terminates for every value and every environment, recursive dataclasses included: either the value
      becomes smaller, or it stays and the type becomes smaller. */
  function Coerce(v: Val, tp: Ty, env: Env, lib: Lib): Res<Val>
    decreases v, tp, 1
  {
    match tp
    case Union(args) => if NoneT in args && v == NoneV then Good(v) else CoerceUnion(v, args, env, lib)
    case Items(kind, args, _) =>
      (match (if args == [] then Good(if v.Coll? then v.items else [v])
              else if v.Coll? then CoerceAll(v.items, args[0], env, lib)
              else match Coerce(v, args[0], env, lib)
                   case Good(x) => Good([x])
                   case Invalid => Invalid
                   case Crashed => Crashed)
       case Good(items) => MakeColl(kind, items)
       case Invalid => Invalid
       case Crashed => Crashed)
    case DictT(args) =>
      if !v.D? then Invalid
      else
        (match CoerceEntries(v.entries, args, env, lib, [])
         case Good(entries) => Good(D(entries))
         case Invalid => Invalid
         case Crashed => Crashed)
    case Model(id) => if !v.D? then Invalid else Validated(id, v.entries, env, lib)
    case _ => CoerceScalar(v, tp, lib)
  }

  /** The first alternative that accepts. */
  function CoerceUnion(v: Val, args: seq<Ty>, env: Env, lib: Lib): Res<Val>
    decreases v, args, 0
  {
    if args == [] then Invalid
    else if args[0] == NoneT then CoerceUnion(v, args[1..], env, lib)
    else
      match Coerce(v, args[0], env, lib)
      case Good(x) => Good(x)
      case Invalid => CoerceUnion(v, args[1..], env, lib)
      case Crashed => Crashed
  }

  function CoerceAll(items: seq<Val>, tp: Ty, env: Env, lib: Lib): Res<seq<Val>>
    decreases items, tp, 0
  {
    if items == [] then Good([])
    else
      match Coerce(items[0], tp, env, lib)
      case Invalid => Invalid
      case Crashed => Crashed
      case Good(x) =>
        (match CoerceAll(items[1..], tp, env, lib)
         case Good(rest) => Good([x] + rest)
         case Invalid => Invalid
         case Crashed => Crashed)
  }

  /** One item of a dictionary: the key first, then the value; the new key must be hashable. */
  function CoerceEntry(e: Entry, args: seq<Ty>, env: Env, lib: Lib): Res<Entry>
    decreases e, 1
  {
    match (if |args| == 2 then Coerce(e.key, args[0], env, lib) else Good(e.key))
    case Invalid => Invalid
    case Crashed => Crashed
    case Good(key) =>
      (match CoerceValue(e, if |args| == 2 then args[1] else AnyT, env, lib)
       case Invalid => Invalid
       case Crashed => Crashed
       case Good(value) => if Hashable(key) then Good(Entry(key, value)) else Crashed)
  }

  function CoerceValue(e: Entry, tp: Ty, env: Env, lib: Lib): Res<Val>
    decreases e, 0
  {
    Coerce(e.value, tp, env, lib)
  }

  function CoerceEntries(entries: seq<Entry>, args: seq<Ty>, env: Env, lib: Lib, done: seq<Entry>): Res<seq<Entry>>
    decreases entries, args, 0
  {
    if entries == [] then Good(done)
    else
      match CoerceEntry(entries[0], args, env, lib)
      case Invalid => Invalid
      case Crashed => Crashed
      case Good(e) => CoerceEntries(entries[1..], args, env, lib, Put(done, e.key, e.value))
  }

  // ---- dataclasses -------------------------------------------------------------------------

  /** Position of a key of a dictionary, or -1. */
  function Index(entries: seq<Entry>, name: string): (k: int)
    ensures -1 <= k < |entries|
    ensures k >= 0 ==> entries[k].key == S(name)
    ensures k < 0 ==> forall i :: 0 <= i < |entries| ==> entries[i].key != S(name)
  {
    if entries == [] then -1
    else if entries[0].key == S(name) then 0
    else var k := Index(entries[1..], name); if k < 0 then -1 else k + 1
  }

  predicate Known(key: Val, fields: seq<FieldDef>) {
    exists i :: 0 <= i < |fields| && key == S(fields[i].name)
  }

  /** Unknown keys are reported, which only works for strings. */
  function Unknown(entries: seq<Entry>, fields: seq<FieldDef>): Res<()> {
    if exists i :: 0 <= i < |entries| && !Known(entries[i].key, fields) && !entries[i].key.S? then Crashed
    else if exists i :: 0 <= i < |entries| && !Known(entries[i].key, fields) then Invalid
    else Good(())
  }

  function Validated(id: nat, entries: seq<Entry>, env: Env, lib: Lib): Res<Val>
    decreases entries, FieldsOf(env, id), 1
  {
    match Unknown(entries, FieldsOf(env, id))
    case Invalid => Invalid
    case Crashed => Crashed
    case Good(_) =>
      (match BindFields(FieldsOf(env, id), entries, env, lib)
       case Good(values) => Good(Obj(id, values))
       case Invalid => Invalid
       case Crashed => Crashed)
  }

  /** The constructor's arguments: given values coerced, missing ones from the defaults. */
  function BindFields(fields: seq<FieldDef>, entries: seq<Entry>, env: Env, lib: Lib): Res<seq<Bound>>
    decreases entries, fields, 0
  {
    if fields == [] then Good([])
    else
      match BindField(fields[0], entries, env, lib)
      case Invalid => Invalid
      case Crashed => Crashed
      case Good(x) =>
        Prepend([Bound(fields[0].name, x)], BindFields(fields[1..], entries, env, lib))
  }

  function BindField(field: FieldDef, entries: seq<Entry>, env: Env, lib: Lib): Res<Val>
    decreases entries, field, 0
  {
    var k := Index(entries, field.name);
    if k >= 0 then CoerceValue(entries[k], field.ty, env, lib)
    else if field.default.Some? then Good(field.default.value)
    else Invalid
  }

  /** `validate_model` as the loop it is. */
  method ValidateModel(id: nat, entries: seq<Entry>, env: Env, lib: Lib) returns (r: Res<Val>)
    ensures r == Validated(id, entries, env, lib)
  {
    hide Unknown, BindField;
    var fields := FieldsOf(env, id);
    match Unknown(entries, fields) {
      case Invalid => return Invalid;
      case Crashed => return Crashed;
      case Good(_) =>
    }
    var kwargs: seq<Bound> := [];
    PrependNothing(BindFields(fields, entries, env, lib));
    assert fields[0..] == fields;
    for i := 0 to |fields|
      invariant BindFields(fields, entries, env, lib) == Prepend(kwargs, BindFields(fields[i..], entries, env, lib))
    {
      var field := fields[i];
      assert fields[i..][0] == field && fields[i..][1..] == fields[i + 1..];
      var x := BindField(field, entries, env, lib);
      match x {
        case Invalid => return Invalid;
        case Crashed => return Crashed;
        case Good(value) =>
          PrependOne(kwargs, Bound(field.name, value), BindFields(fields[i + 1..], entries, env, lib));
          kwargs := kwargs + [Bound(field.name, value)];
      }
    }
    assert fields[|fields|..] == [];
    assert kwargs + [] == kwargs;
    r := Good(Obj(id, kwargs));
  }

  /** What a field is bound to: the value given under its name, coerced to its type, else its default. */
  ghost predicate Supplied(field: FieldDef, entries: seq<Entry>, x: Val, env: Env, lib: Lib) {
    if exists i :: Gives(entries, i, field.name) then
      exists i :: Gives(entries, i, field.name) && Coerce(entries[i].value, field.ty, env, lib) == Good(x)
    else
      field.default == Some(x)
  }

  /** The entry of this name; there is only one in a dictionary. */
  ghost predicate Gives(entries: seq<Entry>, i: int, name: string) {
    0 <= i < |entries| && entries[i].key == S(name) && forall j :: 0 <= j < i ==> entries[j].key != S(name)
  }

  /** A dataclass is built, with these values, exactly when every key is one of its fields and the values are, in
      field order, those the fields are given or, only where none is given, have by default. */
  lemma ValidatedExactly(id: nat, entries: seq<Entry>, values: seq<Bound>, env: Env, lib: Lib)
    ensures Coerce(D(entries), Model(id), env, lib) == Validated(id, entries, env, lib)
    ensures var fields := FieldsOf(env, id);
            Validated(id, entries, env, lib) == Good(Obj(id, values)) <==>
            && (forall i :: 0 <= i < |entries| ==> exists k :: 0 <= k < |fields| && entries[i].key == S(fields[k].name))
            && |values| == |fields|
            && (forall i :: 0 <= i < |fields| ==>
                values[i].name == fields[i].name && Supplied(fields[i], entries, values[i].value, env, lib))
    ensures var r := Validated(id, entries, env, lib); r.Good? ==> r.value.Obj? && r.value.id == id
  {
    hide BindField, Supplied, CoerceScalar;
    var fields := FieldsOf(env, id);
    assert forall i :: 0 <= i < |entries| ==>
        (Known(entries[i].key, fields) <==> exists k :: 0 <= k < |fields| && entries[i].key == S(fields[k].name));
    BindExactly(fields, entries, values, env, lib);
  }

  /** A key that is none of its fields is refused, and makes the validator raise if it, or another such key, is not a
      string. */
  lemma UnknownKeyRefused(id: nat, entries: seq<Entry>, i: nat, env: Env, lib: Lib)
    requires i < |entries|
    requires forall k :: 0 <= k < |FieldsOf(env, id)| ==> entries[i].key != S(FieldsOf(env, id)[k].name)
    ensures !entries[i].key.S? ==> Coerce(D(entries), Model(id), env, lib) == Crashed
    ensures (forall j :: 0 <= j < |entries| ==> entries[j].key.S?) ==>
              Coerce(D(entries), Model(id), env, lib) == Invalid
  {
    hide BindFields, CoerceScalar;
    assert !Known(entries[i].key, FieldsOf(env, id));
  }

  lemma SuppliedExactly(field: FieldDef, entries: seq<Entry>, x: Val, env: Env, lib: Lib)
    ensures BindField(field, entries, env, lib) == Good(x) <==> Supplied(field, entries, x, env, lib)
  {
    hide Coerce;
    var k := Index(entries, field.name);
    if k >= 0 {
      IndexGives(entries, field.name);
    }
  }

  lemma {:induction false} IndexGives(entries: seq<Entry>, name: string)
    requires Index(entries, name) >= 0
    ensures forall i :: Gives(entries, i, name) <==> i == Index(entries, name)
  {
    if entries[0].key == S(name) {
    } else {
      IndexGives(entries[1..], name);
      forall i
        ensures Gives(entries, i, name) <==> Gives(entries[1..], i - 1, name)
      {
        assert forall j :: 1 <= j < |entries| ==> entries[j] == entries[1..][j - 1];
      }
    }
  }

  lemma {:induction false} BindExactly(fields: seq<FieldDef>, entries: seq<Entry>, values: seq<Bound>,
                                       env: Env, lib: Lib)
    ensures BindFields(fields, entries, env, lib) == Good(values) <==>
            && |values| == |fields|
            && (forall i :: 0 <= i < |fields| ==>
                values[i].name == fields[i].name && Supplied(fields[i], entries, values[i].value, env, lib))
  {
    hide BindField, Supplied;
    if fields == [] {
    } else {
      if values != [] {
        SuppliedExactly(fields[0], entries, values[0].value, env, lib);
        BindExactly(fields[1..], entries, values[1..], env, lib);
        assert values == [values[0]] + values[1..];
        assert forall i :: 1 <= i < |fields| ==> fields[i] == fields[1..][i - 1];
        assert forall i :: 1 <= i < |values| ==> values[i] == values[1..][i - 1];
      }
    }
  }

  function Prepend(kwargs: seq<Bound>, r: Res<seq<Bound>>): Res<seq<Bound>> {
    match r case Good(rest) => Good(kwargs + rest) case Invalid => Invalid case Crashed => Crashed
  }

  lemma PrependNothing(r: Res<seq<Bound>>)
    ensures Prepend([], r) == r
  {
    if r.Good? { assert [] + r.value == r.value; }
  }

  lemma PrependOne(kwargs: seq<Bound>, b: Bound, r: Res<seq<Bound>>)
    ensures Prepend(kwargs, Prepend([b], r)) == Prepend(kwargs + [b], r)
  {
    if r.Good? { assert kwargs + ([b] + r.value) == kwargs + [b] + r.value; }
  }

  /** A union of two tries the second where the first refuses. */
  lemma TwoAlternatives(v: Val, a: Ty, b: Ty, env: Env, lib: Lib)
    requires a != NoneT && b != NoneT
    ensures Coerce(v, Union([a, b]), env, lib)
         == if Coerce(v, a, env, lib) == Invalid then Coerce(v, b, env, lib) else Coerce(v, a, env, lib)
  {
    var args := [a, b];
    var x, y := Coerce(v, a, env, lib), Coerce(v, b, env, lib);
    assert CoerceUnion(v, [], env, lib) == Invalid;
    assert args[1..] == [b] && [b][1..] == [];
    assert CoerceUnion(v, [b], env, lib) == y;
    assert CoerceUnion(v, args, env, lib) == if x == Invalid then y else x;
  }

  // ---- what is returned inhabits the type --------------------------------------------------

  predicate Inhabits(v: Val, tp: Ty, env: Env)
    decreases v, tp
  {
    match tp
    case AnyT => true
    case NoneT => v.NoneV?
    case BoolT => v.B?
    case IntT => v.I?
    case FloatT => v.F?
    case StrT => v.S?
    case BytesT => v.Y?
    case Bare(kind) => v.Coll? && v.kind == kind
    case Union(args) => exists i :: 0 <= i < |args| && Inhabits(v, args[i], env)
    case Items(kind, args, variadic) =>
      v.Coll? && v.kind == kind &&
      (if kind == TupleK && !variadic && args != [] then
         |v.items| == |args| && forall i :: 0 <= i < |args| ==> Inhabits(v.items[i], args[i], env)
       else args != [] ==> forall i :: 0 <= i < |v.items| ==> Inhabits(v.items[i], args[0], env))
    case DictT(args) =>
      v.D? && (|args| == 2 ==> forall i :: 0 <= i < |v.entries| ==>
                 Inhabits(v.entries[i].key, args[0], env) && Inhabits(v.entries[i].value, args[1], env))
    case Model(id) =>
      v.Obj? && v.id == id && |v.values| == |FieldsOf(env, id)| &&
      forall i :: 0 <= i < |v.values| ==>
        v.values[i].name == FieldsOf(env, id)[i].name && Inhabits(v.values[i].value, FieldsOf(env, id)[i].ty, env)
  }

  /** Tuples are homogeneous. */
  predicate Uniform(tp: Ty) {
    match tp
    case Union(args) => forall i :: 0 <= i < |args| ==> Uniform(args[i])
    case Items(kind, args, variadic) =>
      (kind == TupleK && args != [] ==> variadic) && forall i :: 0 <= i < |args| ==> Uniform(args[i])
    case DictT(args) => forall i :: 0 <= i < |args| ==> Uniform(args[i])
    case _ => true
  }

  /** Tuples are homogeneous in every field type, and defaults are well typed. */
  ghost predicate WellTyped(env: Env) {
    forall m, i :: 0 <= m < |env| && 0 <= i < |env[m]| ==>
      Uniform(env[m][i].ty) && (env[m][i].default.Some? ==> Inhabits(env[m][i].default.value, env[m][i].ty, env))
  }

  ghost predicate FieldsTyped(fields: seq<FieldDef>, env: Env) {
    forall i :: 0 <= i < |fields| ==>
      Uniform(fields[i].ty) && (fields[i].default.Some? ==> Inhabits(fields[i].default.value, fields[i].ty, env))
  }

  /** Whatever the validator returns has the requested type. */
  lemma {:induction false} CoerceSound(v: Val, tp: Ty, env: Env, lib: Lib)
    requires WellTyped(env) && Uniform(tp)
    ensures var r := Coerce(v, tp, env, lib); r.Good? ==> Inhabits(r.value, tp, env)
    decreases v, tp, 1
  {
    match tp
    case Union(args) =>
      if !(NoneT in args && v == NoneV) {
        UnionSound(v, args, env, lib);
      } else {
        var i :| 0 <= i < |args| && args[i] == NoneT;
        assert Inhabits(v, args[i], env);
      }
    case Items(_, _, _) => ItemsSound(v, tp, env, lib);
    case DictT(args) =>
      if v.D? {
        EntriesSound(v.entries, args, env, lib, []);
      }
    case Model(id) =>
      if v.D? {
        BindSound(FieldsOf(env, id), v.entries, env, lib);
      }
    case _ =>
  }

  lemma {:induction false} ItemsSound(v: Val, tp: Ty, env: Env, lib: Lib)
    requires WellTyped(env) && tp.Items? && Uniform(tp)
    ensures var r := Coerce(v, tp, env, lib); r.Good? ==> Inhabits(r.value, tp, env)
    decreases v, tp, 0
  {
    hide CoerceScalar, Hashable;
    if tp.args == [] {
    } else {
      var item := tp.args[0];
      if v.Coll? {
        AllSound(v.items, item, env, lib);
        var items := CoerceAll(v.items, item, env, lib);
        if items.Good? { CollInhabits(items.value, tp, env); }
      } else {
        CoerceSound(v, item, env, lib);
        var x := Coerce(v, item, env, lib);
        if x.Good? { CollInhabits([x.value], tp, env); }
      }
    }
  }

  lemma CollInhabits(items: seq<Val>, tp: Ty, env: Env)
    requires tp.Items? && tp.args != [] && Uniform(tp)
    requires forall i :: 0 <= i < |items| ==> Inhabits(items[i], tp.args[0], env)
    ensures Inhabits(Coll(tp.kind, items), tp, env)
  {
  }

  lemma {:induction false} UnionSound(v: Val, args: seq<Ty>, env: Env, lib: Lib)
    requires WellTyped(env) && forall i :: 0 <= i < |args| ==> Uniform(args[i])
    ensures var r := CoerceUnion(v, args, env, lib);
            r.Good? ==> exists i :: 0 <= i < |args| && Inhabits(r.value, args[i], env)
    decreases v, args, 0
  {
    if args == [] {
    } else {
      var r := CoerceUnion(v, args, env, lib);
      UnionSound(v, args[1..], env, lib);
      if args[0] != NoneT {
        CoerceSound(v, args[0], env, lib);
      }
      if r.Good? && r == CoerceUnion(v, args[1..], env, lib) {
        var i :| 0 <= i < |args[1..]| && Inhabits(r.value, args[1..][i], env);
        assert args[1..][i] == args[i + 1];
      }
    }
  }

  lemma {:induction false} AllSound(items: seq<Val>, tp: Ty, env: Env, lib: Lib)
    requires WellTyped(env) && Uniform(tp)
    ensures var r := CoerceAll(items, tp, env, lib);
            r.Good? ==> forall i :: 0 <= i < |r.value| ==> Inhabits(r.value[i], tp, env)
    decreases items, tp, 0
  {
    if items == [] {
    } else {
      CoerceSound(items[0], tp, env, lib);
      AllSound(items[1..], tp, env, lib);
      var first, rest := Coerce(items[0], tp, env, lib), CoerceAll(items[1..], tp, env, lib);
      if first.Good? && rest.Good? {
        var r := CoerceAll(items, tp, env, lib).value;
        assert r == [first.value] + rest.value;
        forall i | 0 <= i < |r|
          ensures Inhabits(r[i], tp, env)
        {
          if i > 0 { assert r[i] == rest.value[i - 1]; }
        }
      }
    }
  }

  ghost predicate EntriesInhabit(entries: seq<Entry>, args: seq<Ty>, env: Env) {
    |args| == 2 ==> forall i :: 0 <= i < |entries| ==>
      Inhabits(entries[i].key, args[0], env) && Inhabits(entries[i].value, args[1], env)
  }

  lemma {:induction false} PutInhabits(entries: seq<Entry>, key: Val, value: Val, args: seq<Ty>, env: Env)
    requires EntriesInhabit(entries, args, env)
    requires |args| == 2 ==> Inhabits(key, args[0], env) && Inhabits(value, args[1], env)
    ensures EntriesInhabit(Put(entries, key, value), args, env)
  {
    if entries != [] && entries[0].key != key {
      PutInhabits(entries[1..], key, value, args, env);
    }
  }

  lemma {:induction false} EntriesSound(entries: seq<Entry>, args: seq<Ty>, env: Env, lib: Lib, done: seq<Entry>)
    requires WellTyped(env) && (forall i :: 0 <= i < |args| ==> Uniform(args[i])) && EntriesInhabit(done, args, env)
    ensures var r := CoerceEntries(entries, args, env, lib, done); r.Good? ==> EntriesInhabit(r.value, args, env)
    decreases entries, args, 0
  {
    hide EntriesInhabit, CoerceEntry;
    if entries == [] {
    } else {
      var e := CoerceEntry(entries[0], args, env, lib);
      EntrySound(entries[0], args, env, lib);
      if e.Good? {
        PutInhabits(done, e.value.key, e.value.value, args, env);
        EntriesSound(entries[1..], args, env, lib, Put(done, e.value.key, e.value.value));
      }
    }
  }

  lemma {:induction false} EntrySound(e: Entry, args: seq<Ty>, env: Env, lib: Lib)
    requires WellTyped(env) && forall i :: 0 <= i < |args| ==> Uniform(args[i])
    ensures var r := CoerceEntry(e, args, env, lib);
            r.Good? && |args| == 2 ==> Inhabits(r.value.key, args[0], env) && Inhabits(r.value.value, args[1], env)
    decreases e, 1
  {
    if |args| == 2 {
      CoerceSound(e.key, args[0], env, lib);
      ValueSound(e, args[1], env, lib);
    }
  }

  lemma {:induction false} ValueSound(e: Entry, tp: Ty, env: Env, lib: Lib)
    requires WellTyped(env) && Uniform(tp)
    ensures var r := CoerceValue(e, tp, env, lib); r.Good? ==> Inhabits(r.value, tp, env)
    decreases e, 0
  {
    CoerceSound(e.value, tp, env, lib);
  }

  ghost predicate BoundInhabit(values: seq<Bound>, fields: seq<FieldDef>, env: Env) {
    |values| == |fields| &&
    forall i :: 0 <= i < |values| ==> values[i].name == fields[i].name && Inhabits(values[i].value, fields[i].ty, env)
  }

  lemma {:induction false} BindSound(fields: seq<FieldDef>, entries: seq<Entry>, env: Env, lib: Lib)
    requires WellTyped(env) && FieldsTyped(fields, env)
    ensures var r := BindFields(fields, entries, env, lib); r.Good? ==> BoundInhabit(r.value, fields, env)
    decreases entries, fields, 0
  {
    if fields == [] {
    } else {
      var k := Index(entries, fields[0].name);
      if k >= 0 {
        ValueSound(entries[k], fields[0].ty, env, lib);
      }
      BindSound(fields[1..], entries, env, lib);
    }
  }

  // ---- where it is not ---------------------------------------------------------------------

  /** Fixed-length tuples are coerced by their first parameter only. */
  lemma FixedTupleNotChecked(env: Env, lib: Lib)
    ensures var tp := Items(TupleK, [IntT, StrT], false);
            var r := Coerce(Coll(ListK, [I(1), I(2), I(3)]), tp, env, lib);
            r == Good(Coll(TupleK, [I(1), I(2), I(3)])) && !Inhabits(r.value, tp, env)
  {
    IntsStay([I(1), I(2), I(3)], env, lib);
  }

  /** A tuple type with acceptable parameters gets only values of its own from the validator if and only if it is
      variadic or has no parameters: every other one turns the empty list into an empty tuple. */
  lemma TupleExactly(args: seq<Ty>, variadic: bool, env: Env, lib: Lib)
    requires WellTyped(env) && forall i :: 0 <= i < |args| ==> Uniform(args[i])
    ensures var tp := Items(TupleK, args, variadic);
            (forall v :: Coerce(v, tp, env, lib).Good? ==> Inhabits(Coerce(v, tp, env, lib).value, tp, env)) <==>
            variadic || args == []
  {
    var tp := Items(TupleK, args, variadic);
    if variadic || args == [] {
      forall v | Coerce(v, tp, env, lib).Good?
        ensures Inhabits(Coerce(v, tp, env, lib).value, tp, env)
      {
        CoerceSound(v, tp, env, lib);
      }
    } else {
      var empty := Coll(ListK, []);
      assert CoerceAll([], args[0], env, lib) == Good([]);
      assert Coerce(empty, tp, env, lib) == Good(Coll(TupleK, []));
    }
  }

  lemma {:induction false} IntsStay(items: seq<Val>, env: Env, lib: Lib)
    requires forall i :: 0 <= i < |items| ==> items[i].I?
    ensures CoerceAll(items, IntT, env, lib) == Good(items)
  {
    if items == [] {
    } else {
      IntsStay(items[1..], env, lib);
      assert items == [items[0]] + items[1..];
    }
  }

  /** Coercion of a union is not idempotent: the integer 1 becomes "1", and "1" becomes true. */
  lemma UnionNotIdempotent(env: Env, lib: Lib)
    requires lib.show(I(1)) == Some("1")
    ensures var tp := Union([BoolT, StrT]);
            Coerce(I(1), tp, env, lib) == Good(S("1")) && Coerce(S("1"), tp, env, lib) == Good(B(true))
  {
    assert [BoolT, StrT][1..] == [StrT];
    assert Text.Lower(Text.Trim("1")) == "1" by { Text.TrimSpaced("1"); }
  }
}
