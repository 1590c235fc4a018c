/** Coercing twice is coercing once, for the types whose only unions are optional ones. */
module Idempotence {
  import opened Validation

  /** No dataclass (a built one is no dictionary any more), and no union but `T | None`. */
  predicate Steady(tp: Ty) {
    match tp
    case Union(args) => |args| == 2 && NoneT in args && forall i :: 0 <= i < |args| ==> Steady(args[i])
    case Items(_, args, _) => forall i :: 0 <= i < |args| ==> Steady(args[i])
    case DictT(args) => forall i :: 0 <= i < |args| ==> Steady(args[i])
    case Model(_) => false
    case _ => true
  }

  /** Whatever comes out of the validator goes through it unchanged. */
  lemma {:induction false} CoerceIsIdempotent(v: Val, tp: Ty, env: Env, lib: Lib, x: Val)
    requires Steady(tp) && Coerce(v, tp, env, lib) == Good(x)
    ensures Coerce(x, tp, env, lib) == Good(x)
    decreases v, tp, 1
  {
    hide CoerceUnion, CoerceAll, CoerceEntries, CoerceEntry, Hashable;
    match tp
    case Union(args) =>
      if v != NoneV {
        var t := if args[0] == NoneT then args[1] else args[0];
        OptionalIs(v, args, env, lib);
        CoerceIsIdempotent(v, t, env, lib, x);
        OptionalIs(x, args, env, lib);
      }
    case Items(kind, args, _) =>
      if args != [] {
        ItemsFixed(v, args[0], env, lib, x.items);
      }
    case DictT(args) =>
      EntriesFixed(v.entries, args, env, lib, []);
      FixedStay([], x.entries, args, env, lib);
      assert [] + x.entries == x.entries;
    case Model(_) =>
    case _ => ScalarFixed(v, tp, lib, x);
  }

  /** Coercing twice is coercing once. */
  ghost predicate Settled(tp: Ty, env: Env, lib: Lib) {
    forall v, x :: Coerce(v, tp, env, lib) == Good(x) ==> Coerce(x, tp, env, lib) == Good(x)
  }

  /** What only `b` has accepted, `a` leaves alone or refuses too. */
  ghost predicate Respects(a: Ty, b: Ty, env: Env, lib: Lib) {
    forall v, x :: Coerce(v, a, env, lib) == Invalid && Coerce(v, b, env, lib) == Good(x) ==>
      Coerce(x, a, env, lib) == Invalid || Coerce(x, a, env, lib) == Good(x)
  }

  /** A union of two such types is idempotent if and only if the first respects the second. */
  lemma UnionOfTwoExactly(a: Ty, b: Ty, env: Env, lib: Lib)
    requires Steady(a) && Steady(b) && a != NoneT && b != NoneT
    ensures Settled(Union([a, b]), env, lib) <==> Respects(a, b, env, lib)
  {
    hide Coerce;
    var tp := Union([a, b]);
    if Settled(tp, env, lib) {
      forall v, x | Coerce(v, a, env, lib) == Invalid && Coerce(v, b, env, lib) == Good(x)
        ensures Coerce(x, a, env, lib) == Invalid || Coerce(x, a, env, lib) == Good(x)
      {
        TwoAlternatives(v, a, b, env, lib);
        TwoAlternatives(x, a, b, env, lib);
      }
    }
    if Respects(a, b, env, lib) {
      forall v, x | Coerce(v, tp, env, lib) == Good(x)
        ensures Coerce(x, tp, env, lib) == Good(x)
      {
        TwoAlternatives(v, a, b, env, lib);
        TwoAlternatives(x, a, b, env, lib);
        if Coerce(v, a, env, lib) == Invalid {
          CoerceIsIdempotent(v, b, env, lib, x);
        } else {
          CoerceIsIdempotent(v, a, env, lib, x);
        }
      }
    }
  }

  lemma ScalarFixed(v: Val, tp: Ty, lib: Lib, x: Val)
    requires CoerceScalar(v, tp, lib) == Good(x)
    ensures CoerceScalar(x, tp, lib) == Good(x)
  {
  }

  lemma OptionalIs(v: Val, args: seq<Ty>, env: Env, lib: Lib)
    requires |args| == 2 && NoneT in args
    ensures var t := if args[0] == NoneT then args[1] else args[0];
            CoerceUnion(v, args, env, lib) == if t == NoneT then Invalid else Coerce(v, t, env, lib)
  {
    hide Coerce;
    assert args[1..] == [args[1]] && args[1..][1..] == [];
    assert CoerceUnion(v, [], env, lib) == Invalid;
  }

  lemma {:induction false} ItemsFixed(v: Val, tp: Ty, env: Env, lib: Lib, xs: seq<Val>)
    requires Steady(tp)
    requires if v.Coll? then CoerceAll(v.items, tp, env, lib) == Good(xs)
             else Coerce(v, tp, env, lib).Good? && xs == [Coerce(v, tp, env, lib).value]
    ensures CoerceAll(xs, tp, env, lib) == Good(xs)
    decreases v, tp, 2
  {
    if v.Coll? {
      AllFixed(v.items, tp, env, lib, xs);
    } else {
      CoerceIsIdempotent(v, tp, env, lib, xs[0]);
      assert xs[1..] == [] && CoerceAll([], tp, env, lib) == Good([]);
      assert [xs[0]] + [] == xs;
    }
  }

  lemma {:induction false} AllFixed(items: seq<Val>, tp: Ty, env: Env, lib: Lib, xs: seq<Val>)
    requires Steady(tp) && CoerceAll(items, tp, env, lib) == Good(xs)
    ensures CoerceAll(xs, tp, env, lib) == Good(xs)
    decreases items, tp, 0
  {
    if items == [] {
    } else {
      CoerceIsIdempotent(items[0], tp, env, lib, xs[0]);
      var rest := CoerceAll(items[1..], tp, env, lib).value;
      assert xs == [xs[0]] + rest && xs[1..] == rest;
      AllFixed(items[1..], tp, env, lib, rest);
    }
  }

  // ---- dictionaries ------------------------------------------------------------------------

  /** Entries that are coerced to themselves, no key twice. */
  ghost predicate Fixed(entries: seq<Entry>, args: seq<Ty>, env: Env, lib: Lib) {
    && (forall i :: 0 <= i < |entries| ==> CoerceEntry(entries[i], args, env, lib) == Good(entries[i]))
    && (forall i, j :: 0 <= i < j < |entries| ==> entries[i].key != entries[j].key)
  }

  lemma {:induction false} EntriesFixed(entries: seq<Entry>, args: seq<Ty>, env: Env, lib: Lib, done: seq<Entry>)
    requires (forall i :: 0 <= i < |args| ==> Steady(args[i])) && Fixed(done, args, env, lib)
    ensures var r := CoerceEntries(entries, args, env, lib, done); r.Good? ==> Fixed(r.value, args, env, lib)
    decreases entries, args, 0
  {
    hide CoerceEntry, Fixed, Put;
    if entries == [] {
    } else {
      var e := CoerceEntry(entries[0], args, env, lib);
      if e.Good? {
        EntryFixed(entries[0], args, env, lib);
        PutFixed(done, e.value, args, env, lib);
        EntriesFixed(entries[1..], args, env, lib, Put(done, e.value.key, e.value.value));
      }
    }
  }

  lemma {:induction false} EntryFixed(e: Entry, args: seq<Ty>, env: Env, lib: Lib)
    requires forall i :: 0 <= i < |args| ==> Steady(args[i])
    ensures var r := CoerceEntry(e, args, env, lib); r.Good? ==> CoerceEntry(r.value, args, env, lib) == r
    decreases e, 1
  {
    hide Coerce, Hashable;
    var r := CoerceEntry(e, args, env, lib);
    if r.Good? {
      if |args| == 2 {
        CoerceIsIdempotent(e.key, args[0], env, lib, r.value.key);
      }
      ValueFixed(e, if |args| == 2 then args[1] else AnyT, env, lib, r.value.value);
    }
  }

  lemma {:induction false} ValueFixed(e: Entry, tp: Ty, env: Env, lib: Lib, x: Val)
    requires Steady(tp) && CoerceValue(e, tp, env, lib) == Good(x)
    ensures Coerce(x, tp, env, lib) == Good(x)
    decreases e, 0
  {
    CoerceIsIdempotent(e.value, tp, env, lib, x);
  }

  lemma PutFixed(entries: seq<Entry>, e: Entry, args: seq<Ty>, env: Env, lib: Lib)
    requires Fixed(entries, args, env, lib) && CoerceEntry(e, args, env, lib) == Good(e)
    ensures Fixed(Put(entries, e.key, e.value), args, env, lib)
  {
    hide CoerceEntry;
    PutIs(entries, e);
  }

  /** `d[key] = value` replaces the value of the first entry with that key, or appends one. */
  lemma {:induction false} PutIs(entries: seq<Entry>, e: Entry)
    ensures var r := Put(entries, e.key, e.value);
            if exists k :: 0 <= k < |entries| && entries[k].key == e.key
            then exists k :: 0 <= k < |entries| && entries[k].key == e.key && r == entries[k := e]
            else r == entries + [e]
  {
    if entries != [] && entries[0].key != e.key {
      var rest := entries[1..];
      PutIs(rest, e);
      if k :| 0 <= k < |entries| && entries[k].key == e.key {
        assert rest[k - 1].key == e.key;
        var j :| 0 <= j < |rest| && rest[j].key == e.key && Put(rest, e.key, e.value) == rest[j := e];
        assert entries[j + 1].key == e.key && Put(entries, e.key, e.value) == entries[j + 1 := e];
      } else {
        assert forall k :: 0 <= k < |rest| ==> rest[k] == entries[k + 1];
        assert [entries[0]] + (rest + [e]) == entries + [e];
      }
    } else if entries != [] {
      assert entries[0].key == e.key && Put(entries, e.key, e.value) == entries[0 := e];
    }
  }

  lemma {:induction false} FixedStay(done: seq<Entry>, entries: seq<Entry>, args: seq<Ty>, env: Env, lib: Lib)
    requires Fixed(done + entries, args, env, lib)
    ensures CoerceEntries(entries, args, env, lib, done) == Good(done + entries)
    decreases |entries|
  {
    hide CoerceEntry, Put;
    if entries == [] {
      assert done + [] == done;
    } else {
      var all, n, e := done + entries, |done|, entries[0];
      assert all[n] == e;
      assert forall k :: 0 <= k < n ==> done[k] == all[k];
      PutIs(done, e);
      assert done + [e] + entries[1..] == all;
      FixedStay(done + [e], entries[1..], args, env, lib);
    }
  }
}
