/** Where schema and validator stop agreeing: for values, and for the types the agreement leaves out. */
module SchemaLimits {
  import opened Errors
  import opened Validation
  import opened Schemas
  import opened SchemaAgreement
  import Text

  // ---- single conversions ------------------------------------------------------------------

  /** A valid integer is accepted as a float exactly when it is not too large, and crashes the validator when it
      is; likewise a valid string as bytes. */
  lemma ConversionsExactly(i: int, s: string, lib: Lib)
    ensures Accepts(I(i), SchemaFor(FloatT, [], 0))
    ensures Coerce(I(i), FloatT, [], lib).Good? <==> lib.toFloat(i).Some?
    ensures Coerce(I(i), FloatT, [], lib).Crashed? <==> lib.toFloat(i).None?
    ensures Accepts(S(s), SchemaFor(BytesT, [], 0))
    ensures Coerce(S(s), BytesT, [], lib).Good? <==> lib.encode(s).Some?
    ensures Coerce(S(s), BytesT, [], lib).Crashed? <==> lib.encode(s).None?
  {
  }

  /** An infinite number is valid for `int | float` and crashes the validator, which tries the integer first; for
      `float | int` it is accepted. */
  lemma InfinityCrashes(negative: bool, lib: Lib)
    ensures var v := F(Infinite(negative));
            && Accepts(v, SchemaFor(Union([IntT, FloatT]), [], 0))
            && Coerce(v, Union([IntT, FloatT]), [], lib) == Crashed
            && Coerce(v, Union([FloatT, IntT]), [], lib) == Good(v)
  {
    var v := F(Infinite(negative));
    hide Accepts, Coerce;
    UnionAccepts(v, IntT, FloatT);
    TwoAlternatives(v, IntT, FloatT, [], lib);
    TwoAlternatives(v, FloatT, IntT, [], lib);
    InfinityAlone(negative, lib);
  }

  lemma InfinityAlone(negative: bool, lib: Lib)
    ensures var v := F(Infinite(negative));
            && Accepts(v, SchemaFor(FloatT, [], 0))
            && Coerce(v, IntT, [], lib) == Crashed && Coerce(v, FloatT, [], lib) == Good(v)
  {
  }

  lemma UnionAccepts(v: Val, a: Ty, b: Ty)
    requires RefersBelow(a, 0) && RefersBelow(b, 0) && a != NoneT && b != NoneT
    ensures RefersBelow(Union([a, b]), 0)
    ensures Accepts(v, SchemaFor(Union([a, b]), [], 0)) <==>
            Accepts(v, SchemaFor(a, [], 0)) || Accepts(v, SchemaFor(b, [], 0))
  {
    var args := [a, b];
    assert forall i :: 0 <= i < |args| ==> RefersBelow(args[i], 0);
    assert args[1..] == [b] && [b][1..] == [];
    var x, y := SchemaFor(a, [], 0), SchemaFor(b, [], 0);
    assert OptionSchemas([], [], 0) == [];
    assert OptionSchemas([b], [], 0) == [y];
    assert OptionSchemas(args, [], 0) == [x, y];
    var s := SchemaFor(Union(args), [], 0);
    assert s == Schema(AnyOf([x, y]), false);
    OneOf(v, x, y);
  }

  lemma OneOf(v: Val, x: Schema, y: Schema)
    ensures Accepts(v, Schema(AnyOf([x, y]), false)) <==> Accepts(v, x) || Accepts(v, y)
  {
    var options := [x, y];
    assert options[0] == x && options[1] == y;
    assert Accepts(v, Schema(AnyOf(options), false)) <==> exists i :: 0 <= i < |options| && Accepts(v, options[i]);
  }

  // ---- values ------------------------------------------------------------------------------

  /** Every number, string and part of the value can be converted to what it may be valid for. */
  predicate Representable(v: Val, lib: Lib) {
    && (v.S? || lib.show(v).Some?)
    && match v
       case I(i) => lib.toFloat(i).Some?
       case F(f) => !f.Infinite?
       case S(s) => lib.encode(s).Some?
       case Coll(_, items) => forall i :: 0 <= i < |items| ==> Representable(items[i], lib)
       case D(entries) => forall i :: 0 <= i < |entries| ==> EntryRepresentable(entries[i], lib)
       case _ => true
  }

  predicate EntryRepresentable(e: Entry, lib: Lib) {
    Representable(e.value, lib)
  }

  lemma {:induction false} RepresentableConvertible(v: Val, tp: Ty, env: Env, lib: Lib)
    requires Representable(v, lib)
    ensures Convertible(v, tp, env, lib)
    decreases v, tp, 1
  {
    match tp
    case Union(args) =>
      forall i | 0 <= i < |args| && Decides(v, args, i, env, lib)
        ensures Convertible(v, args[i], env, lib)
      {
        RepresentableConvertible(v, args[i], env, lib);
      }
    case Items(_, args, _) =>
      if args != [] {
        if v.Coll? {
          forall i | 0 <= i < |v.items|
            ensures Convertible(v.items[i], args[0], env, lib)
          {
            RepresentableConvertible(v.items[i], args[0], env, lib);
          }
        } else {
          RepresentableConvertible(v, args[0], env, lib);
        }
      }
    case DictT(args) =>
      if v.D? && |args| == 2 {
        forall i | 0 <= i < |v.entries|
          ensures EntryConvertible(v.entries[i], args[1], env, lib)
        {
          EntryRepresentableConvertible(v.entries[i], args[1], env, lib);
        }
      }
    case Model(id) =>
      if v.D? {
        forall i | 0 <= i < |FieldsOf(env, id)|
          ensures GivenConvertible(v.entries, FieldsOf(env, id)[i], env, lib)
        {
          var field := FieldsOf(env, id)[i];
          var k := Index(v.entries, field.name);
          if k >= 0 {
            EntryRepresentableConvertible(v.entries[k], field.ty, env, lib);
          }
        }
      }
    case _ =>
  }

  lemma {:induction false} EntryRepresentableConvertible(e: Entry, tp: Ty, env: Env, lib: Lib)
    requires EntryRepresentable(e, lib)
    ensures EntryConvertible(e, tp, env, lib)
    decreases e, 0
  {
    RepresentableConvertible(e.value, tp, env, lib);
  }

  /** A type at which nothing is refused: `tp`, or else anything. */
  function OrAny(tp: Ty): Ty {
    Union([tp, AnyT])
  }

  lemma OrAnyIs(v: Val, tp: Ty, lib: Lib)
    requires tp != NoneT
    ensures Coerce(v, OrAny(tp), [], lib)
         == if Coerce(v, tp, [], lib) == Invalid then Good(v) else Coerce(v, tp, [], lib)
  {
    TwoAlternatives(v, tp, AnyT, [], lib);
  }

  lemma OrAnyPlain(tp: Ty, lib: Lib)
    requires Plain(tp, [], lib) && RefersBelow(tp, 0)
    ensures Plain(OrAny(tp), [], lib) && RefersBelow(OrAny(tp), 0)
  {
    assert [tp, AnyT][1] == AnyT;
  }

  lemma OrAnyAccepts(v: Val, tp: Ty)
    requires RefersBelow(tp, 0) && tp != NoneT
    ensures RefersBelow(OrAny(tp), 0) && Accepts(v, SchemaFor(OrAny(tp), [], 0))
  {
    UnionAccepts(v, tp, AnyT);
  }

  /** A plain type at which the value crashes the validator. */
  ghost predicate Traps(tp: Ty, v: Val, lib: Lib) {
    Plain(tp, [], lib) && RefersBelow(tp, 0) && tp != NoneT && Coerce(v, tp, [], lib) == Crashed
  }

  /** A value that is not representable crashes the validator at some plain type. */
  lemma {:induction false} Trap(v: Val, lib: Lib) returns (tp: Ty)
    requires IsJson(v) && !Representable(v, lib)
    ensures Traps(tp, v, lib)
    decreases v, 1
  {
    hide Traps;
    if !v.S? && lib.show(v).None? {
      tp := StrT;
      ScalarTraps(v, tp, lib);
    } else {
      match v
      case Coll(_, items) =>
        var i :| 0 <= i < |items| && !Representable(items[i], lib);
        var inner := Trap(items[i], lib);
        tp := Items(ListK, [OrAny(inner)], false);
        ListTraps(v, i, inner, lib);
      case D(entries) =>
        var i :| 0 <= i < |entries| && !EntryRepresentable(entries[i], lib);
        var inner := EntryTrap(entries[i], lib);
        tp := DictT([StrT, OrAny(inner)]);
        DictTraps(v, i, inner, lib);
      case _ =>
        tp := if v.I? then FloatT else if v.F? then IntT else BytesT;
        ScalarTraps(v, tp, lib);
    }
  }

  lemma ScalarTraps(v: Val, tp: Ty, lib: Lib)
    requires tp == StrT || tp == FloatT || tp == IntT || tp == BytesT
    requires !Convertible(v, tp, [], lib)
    ensures Traps(tp, v, lib)
  {
  }

  lemma ListTraps(v: Val, i: nat, inner: Ty, lib: Lib)
    requires v.Coll? && i < |v.items| && Traps(inner, v.items[i], lib)
    ensures Traps(Items(ListK, [OrAny(inner)], false), v, lib)
  {
    hide CoerceAll;
    OrAnyPlain(inner, lib);
    hide OrAny, Plain;
    ListCrashes(v.items, i, inner, lib);
    ContainersPlain(OrAny(inner), lib);
  }

  lemma ContainersPlain(tp: Ty, lib: Lib)
    requires Plain(tp, [], lib) && RefersBelow(tp, 0)
    ensures Plain(Items(ListK, [tp], false), [], lib) && RefersBelow(Items(ListK, [tp], false), 0)
    ensures Plain(DictT([StrT, tp]), [], lib) && RefersBelow(DictT([StrT, tp]), 0)
  {
    StringKeysAgree(StrT, [], lib);
    hide KeysAgree;
    assert RefersBelow(StrT, 0);
  }

  lemma DictTraps(v: Val, i: nat, inner: Ty, lib: Lib)
    requires IsJson(v) && v.D? && i < |v.entries| && Traps(inner, v.entries[i].value, lib)
    ensures Traps(DictT([StrT, OrAny(inner)]), v, lib)
  {
    hide CoerceEntries;
    OrAnyPlain(inner, lib);
    hide OrAny, Plain;
    DictCrashes(v.entries, i, inner, lib, []);
    ContainersPlain(OrAny(inner), lib);
  }

  lemma {:induction false} EntryTrap(e: Entry, lib: Lib) returns (tp: Ty)
    requires EntryIsJson(e) && !EntryRepresentable(e, lib)
    ensures Traps(tp, e.value, lib)
    decreases e, 0
  {
    tp := Trap(e.value, lib);
  }

  lemma {:induction false} ListCrashes(items: seq<Val>, i: nat, tp: Ty, lib: Lib)
    requires i < |items| && tp != NoneT && Coerce(items[i], tp, [], lib) == Crashed
    ensures CoerceAll(items, OrAny(tp), [], lib) == Crashed
    decreases i
  {
    hide Coerce, OrAny;
    OrAnyIs(items[0], tp, lib);
    if i == 0 {
    } else {
      ListCrashes(items[1..], i - 1, tp, lib);
    }
  }

  lemma {:induction false} DictCrashes(entries: seq<Entry>, i: nat, tp: Ty, lib: Lib, done: seq<Entry>)
    requires forall k :: 0 <= k < |entries| ==> entries[k].key.S?
    requires i < |entries| && tp != NoneT && Coerce(entries[i].value, tp, [], lib) == Crashed
    ensures CoerceEntries(entries, [StrT, OrAny(tp)], [], lib, done) == Crashed
    decreases i
  {
    hide Coerce, OrAny, CoerceEntry, KeysAgree, Put;
    var args := [StrT, OrAny(tp)];
    OrAnyIs(entries[0].value, tp, lib);
    StringKeysAgree(StrT, [], lib);
    StringKey(entries[0], args, [], lib);
    if i == 0 {
    } else {
      var r := CoerceEntry(entries[0], args, [], lib);
      if r.Good? {
        DictCrashes(entries[1..], i - 1, tp, lib, Put(done, r.value.key, r.value.value));
      }
    }
  }

  /** A JSON value makes the validator raise nothing but a validation error at every plain type, and is accepted
      at every plain type whose schema it is valid against, if and only if it is representable. */
  lemma RepresentableExactly(v: Val, lib: Lib)
    requires IsJson(v)
    ensures Representable(v, lib) <==>
            forall tp, env :: Plain(tp, env, lib) && PlainEnv(env, lib) ==> Coerce(v, tp, env, lib) != Crashed
    ensures Representable(v, lib) <==>
            forall tp, env, bound: nat :: Valid(v, tp, env, lib, bound) ==> Coerce(v, tp, env, lib).Good?
  {
    hide Plain, PlainEnv, Coerce, Convertible, Representable, Accepts;
    if Representable(v, lib) {
      forall tp, env | Plain(tp, env, lib) && PlainEnv(env, lib)
        ensures Coerce(v, tp, env, lib) != Crashed
      {
        RepresentableConvertible(v, tp, env, lib);
        NoCrash(v, tp, env, lib);
      }
      forall tp, env, bound: nat | Valid(v, tp, env, lib, bound)
        ensures Coerce(v, tp, env, lib).Good?
      {
        RepresentableConvertible(v, tp, env, lib);
        Agreement(v, tp, env, lib, bound);
      }
    } else {
      var tp := Trap(v, lib);
      OrAnyPlain(tp, lib);
      OrAnyAccepts(v, tp);
      OrAnyIs(v, tp, lib);
      EmptyPlain(lib);
      assert Valid(v, OrAny(tp), [], lib, 0);
    }
  }

  lemma EmptyPlain(lib: Lib)
    ensures PlainEnv([], lib) && Nonrecursive([])
  {
  }

  // ---- types -------------------------------------------------------------------------------

  /** A bare class and `None` on its own are described as strings and refuse every valid value. */
  lemma NeverAgree(v: Val, tp: Ty, env: Env, lib: Lib, bound: nat)
    requires tp.Bare? || tp == NoneT
    requires Nonrecursive(env) && bound <= |env|
    ensures Accepts(v, SchemaFor(tp, env, bound)) <==> v.S?
    ensures Accepts(v, SchemaFor(tp, env, bound)) ==> Coerce(v, tp, env, lib) == Invalid
  {
  }

  /** On convertible JSON values a set of plain items never crashes the validator if and only if the item type
      hashes whatever it accepts. */
  lemma SetExactly(tp: Ty, kind: Kind, env: Env, lib: Lib)
    requires Plain(tp, env, lib) && PlainEnv(env, lib) && (kind == SetK || kind == FrozenSetK)
    ensures HashesAll(tp, env, lib) <==>
            forall v :: IsJson(v) && Convertible(v, Items(kind, [tp], false), env, lib) ==>
              Coerce(v, Items(kind, [tp], false), env, lib) != Crashed
  {
    hide Coerce, Convertible, PlainEnv;
    var set_ := Items(kind, [tp], false);
    if HashesAll(tp, env, lib) {
      forall v | IsJson(v) && Convertible(v, set_, env, lib)
        ensures Coerce(v, set_, env, lib) != Crashed
      {
        NoCrash(v, set_, env, lib);
      }
    } else {
      var v :| IsJson(v) && Coerce(v, tp, env, lib).Good? && !Hashable(Coerce(v, tp, env, lib).value);
      SetOfOneCrashes(v, tp, kind, env, lib);
    }
  }

  lemma SetOfOneCrashes(v: Val, tp: Ty, kind: Kind, env: Env, lib: Lib)
    requires IsJson(v) && Coerce(v, tp, env, lib).Good? && !Hashable(Coerce(v, tp, env, lib).value)
    requires kind == SetK || kind == FrozenSetK
    ensures var list := Coll(ListK, [v]);
            && IsJson(list) && Convertible(list, Items(kind, [tp], false), env, lib)
            && Coerce(list, Items(kind, [tp], false), env, lib) == Crashed
  {
    GoodIsConvertible(v, tp, env, lib);
    var x := Coerce(v, tp, env, lib).value;
    assert [v][1..] == [] && CoerceAll([], tp, env, lib) == Good([]);
    assert CoerceAll([v], tp, env, lib) == Good([x] + []);
    assert !Hashable(([x] + [])[0]);
  }

  /** If the value is valid for the dictionary type and convertible, it is accepted. */
  ghost predicate DictAgrees(v: Val, key: Ty, value: Ty, env: Env, lib: Lib, bound: nat)
    requires Nonrecursive(env) && bound <= |env| && RefersBelow(key, bound) && RefersBelow(value, bound)
  {
    var dict := DictT([key, value]);
    IsJson(v) && Accepts(v, SchemaFor(dict, env, bound)) && Convertible(v, dict, env, lib) ==>
      Coerce(v, dict, env, lib).Good?
  }

  /** When the values agree, and there is one at all, a dictionary type agrees with its schema if and only if the
      key type accepts every string. */
  lemma DictExactly(key: Ty, value: Ty, env: Env, lib: Lib, bound: nat, w: Val)
    requires Nonrecursive(env) && PlainEnv(env, lib) && bound <= |env|
    requires RefersBelow(key, bound) && Valid(w, value, env, lib, bound) && Convertible(w, value, env, lib)
    ensures KeysAgree(key, env, lib) <==>
            forall v :: DictAgrees(v, key, value, env, lib, bound)
  {
    hide Coerce, Convertible, PlainEnv, Accepts;
    var dict := DictT([key, value]);
    if KeysAgree(key, env, lib) {
      forall v
        ensures DictAgrees(v, key, value, env, lib, bound)
      {
        if IsJson(v) && Accepts(v, SchemaFor(dict, env, bound)) {
          Agreement(v, dict, env, lib, bound);
        }
      }
    } else {
      var s :| !(Coerce(S(s), key, env, lib).Good? && Hashable(Coerce(S(s), key, env, lib).value));
      DictOfOne(s, key, value, env, lib, bound, w);
    }
  }

  lemma DictOfOne(s: string, key: Ty, value: Ty, env: Env, lib: Lib, bound: nat, w: Val)
    requires Nonrecursive(env) && bound <= |env| && RefersBelow(key, bound)
    requires Valid(w, value, env, lib, bound) && Convertible(w, value, env, lib)
    requires !(Coerce(S(s), key, env, lib).Good? && Hashable(Coerce(S(s), key, env, lib).value))
    ensures !DictAgrees(D([Entry(S(s), w)]), key, value, env, lib, bound)
  {
    hide PlainEnv, Plain, Coerce, Accepts, Convertible;
    OneEntryAccepted(Entry(S(s), w), key, value, env, lib, bound);
    OneEntryRefused(Entry(S(s), w), [key, value], env, lib);
  }

  lemma OneEntryAccepted(e: Entry, key: Ty, value: Ty, env: Env, lib: Lib, bound: nat)
    requires Nonrecursive(env) && bound <= |env| && RefersBelow(key, bound) && RefersBelow(value, bound)
    requires e.key.S? && IsJson(e.value) && Accepts(e.value, SchemaFor(value, env, bound))
    requires Convertible(e.value, value, env, lib)
    ensures var dict := DictT([key, value]);
            && IsJson(D([e])) && RefersBelow(dict, bound)
            && Accepts(D([e]), SchemaFor(dict, env, bound)) && Convertible(D([e]), dict, env, lib)
  {
    var args := [key, value];
    assert forall i :: 0 <= i < |args| ==> RefersBelow(args[i], bound);
    assert EntryIsJson(e) && EntryConvertible(e, value, env, lib);
    assert SchemaFor(DictT(args), env, bound).shape == MapOf(SchemaFor(value, env, bound));
  }

  lemma OneEntryRefused(e: Entry, args: seq<Ty>, env: Env, lib: Lib)
    requires |args| == 2
    requires !(Coerce(e.key, args[0], env, lib).Good? && Hashable(Coerce(e.key, args[0], env, lib).value))
    ensures !Coerce(D([e]), DictT(args), env, lib).Good?
  {
    assert !CoerceEntry(e, args, env, lib).Good?;
    hide CoerceEntry;
    assert !CoerceEntries([e], args, env, lib, []).Good?;
  }

  // ---- examples ----------------------------------------------------------------------------

  /** A valid object whose key is no integer is refused. */
  lemma KeyTypeDisagrees(lib: Lib)
    requires lib.parseInt("a") == None
    ensures var tp := DictT([IntT, IntT]); var v := D([Entry(S("a"), I(1))]);
            Accepts(v, SchemaFor(tp, [], 0)) && Coerce(v, tp, [], lib) == Invalid
  {
    assert CoerceEntry(Entry(S("a"), I(1)), [IntT, IntT], [], lib) == Invalid;
  }

  /** A set of lists is described as an array of arrays and crashes the validator. */
  lemma SetOfListsDisagrees(lib: Lib)
    ensures var tp := Items(SetK, [Items(ListK, [], false)], false); var v := Coll(ListK, [Coll(ListK, [])]);
            Accepts(v, SchemaFor(tp, [], 0)) && Coerce(v, tp, [], lib) == Crashed
  {
    var inner, list := Coll(ListK, []), Items(ListK, [], false);
    assert Coerce(inner, list, [], lib) == Good(inner);
    assert [inner][1..] == [] && [inner] + [] == [inner];
    assert CoerceAll([inner], list, [], lib) == Good([inner] + []);
    assert !Hashable([inner][0]);
  }
}
