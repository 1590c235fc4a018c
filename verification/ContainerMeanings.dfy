/** What unions, collections and dictionaries accept, and as what (sovereign/validation.py:63-97): equivalences that
    speak of the parts of the value and the parameters of the type. */
module ContainerMeanings {
  import opened Errors
  import opened Validation

  // ---- unions ------------------------------------------------------------------------------

  /** Alternative `i` accepts, and the ones before it refuse. */
  ghost predicate FirstToAccept(v: Val, args: seq<Ty>, i: int, w: Val, env: Env, lib: Lib) {
    && 0 <= i < |args| && args[i] != NoneT && Coerce(v, args[i], env, lib) == Good(w)
    && (forall j :: 0 <= j < i ==> args[j] == NoneT || Coerce(v, args[j], env, lib) == Invalid)
  }

  /** A union takes `None` as it is, if that is among its alternatives, and else what the first alternative that does
      not refuse makes of the value. */
  lemma UnionExactly(v: Val, args: seq<Ty>, w: Val, env: Env, lib: Lib)
    ensures Coerce(v, Union(args), env, lib) == Good(w) <==>
            if NoneT in args && v == NoneV then w == v else exists i :: FirstToAccept(v, args, i, w, env, lib)
  {
    hide CoerceUnion, CoerceScalar;
    AlternativesExactly(v, args, w, env, lib);
  }

  lemma FirstShifts(v: Val, args: seq<Ty>, i: int, w: Val, env: Env, lib: Lib)
    requires args != []
    ensures FirstToAccept(v, args, i, w, env, lib) <==>
            if i == 0 then args[0] != NoneT && Coerce(v, args[0], env, lib) == Good(w)
            else && (args[0] == NoneT || Coerce(v, args[0], env, lib) == Invalid)
                 && FirstToAccept(v, args[1..], i - 1, w, env, lib)
  {
    hide Coerce;
    assert forall j :: 1 <= j < |args| ==> args[j] == args[1..][j - 1];
  }

  lemma {:induction false} AlternativesExactly(v: Val, args: seq<Ty>, w: Val, env: Env, lib: Lib)
    ensures CoerceUnion(v, args, env, lib) == Good(w) <==> exists i :: FirstToAccept(v, args, i, w, env, lib)
  {
    hide Coerce;
    if args == [] {
    } else {
      var rest := args[1..];
      AlternativesExactly(v, rest, w, env, lib);
      FirstShifts(v, args, 0, w, env, lib);
      if i :| FirstToAccept(v, args, i, w, env, lib) {
        FirstShifts(v, args, i, w, env, lib);
      }
      if i :| FirstToAccept(v, rest, i, w, env, lib) {
        FirstShifts(v, args, i + 1, w, env, lib);
      }
    }
  }

  // ---- collections -------------------------------------------------------------------------

  /** The items to be coerced: those of a collection of whatever kind, or the value itself. */
  function Sources(v: Val): seq<Val> {
    if v.Coll? then v.items else [v]
  }

  /** A parametrised collection takes a collection of any kind, or a single value as its only item, exactly if its
      parameter takes every item and, for a set, makes it hashable; number and order of the items stay. */
  lemma ItemsExactly(v: Val, kind: Kind, args: seq<Ty>, variadic: bool, w: Val, env: Env, lib: Lib)
    ensures Coerce(v, Items(kind, args, variadic), env, lib) == Good(w) <==>
            && w.Coll? && w.kind == kind && |w.items| == |Sources(v)|
            && (forall i :: 0 <= i < |w.items| ==>
                if args == [] then w.items[i] == Sources(v)[i]
                else Coerce(Sources(v)[i], args[0], env, lib) == Good(w.items[i]))
            && (kind == SetK || kind == FrozenSetK ==> forall i :: 0 <= i < |w.items| ==> Hashable(w.items[i]))
  {
    hide CoerceAll, Hashable, CoerceScalar;
    if w.Coll? {
      if args == [] {
        assert |w.items| == |Sources(v)| && (forall i :: 0 <= i < |w.items| ==> w.items[i] == Sources(v)[i]) <==>
            w.items == Sources(v);
      } else if v.Coll? {
        AllExactly(v.items, args[0], w.items, env, lib);
      } else if |w.items| == 1 {
        assert w.items == [w.items[0]];
      }
    }
  }

  lemma {:induction false} AllExactly(items: seq<Val>, tp: Ty, out: seq<Val>, env: Env, lib: Lib)
    ensures CoerceAll(items, tp, env, lib) == Good(out) <==>
            |out| == |items| && forall i :: 0 <= i < |out| ==> Coerce(items[i], tp, env, lib) == Good(out[i])
  {
    hide Coerce;
    if items == [] {
    } else if out != [] {
      AllExactly(items[1..], tp, out[1..], env, lib);
      assert out == [out[0]] + out[1..];
      assert forall i :: 1 <= i < |out| ==> out[i] == out[1..][i - 1];
      assert forall i :: 1 <= i < |items| ==> items[i] == items[1..][i - 1];
    }
  }

  // ---- hashing -----------------------------------------------------------------------------

  /** `x` is the value or an item of an item of ... it. */
  ghost predicate Within(v: Val, x: Val)
    decreases v
  {
    v == x || (v.Coll? && exists i :: 0 <= i < |v.items| && Within(v.items[i], x))
  }

  /** Lists, sets, dictionaries and dataclass instances. */
  predicate Mutable(v: Val) {
    v.D? || v.Obj? || (v.Coll? && (v.kind == ListK || v.kind == SetK))
  }

  /** A value can be hashed exactly if nothing within it is mutable. */
  lemma {:induction false} HashableExactly(v: Val)
    ensures Hashable(v) <==> forall x :: Within(v, x) ==> !Mutable(x)
    decreases v
  {
    assert Within(v, v);
    if v.Coll? {
      forall i | 0 <= i < |v.items|
        ensures Hashable(v.items[i]) <==> forall x :: Within(v.items[i], x) ==> !Mutable(x)
        ensures forall x :: Within(v.items[i], x) ==> Within(v, x)
      {
        HashableExactly(v.items[i]);
      }
    }
  }

  // ---- dictionaries ------------------------------------------------------------------------

  /** The entry as it is stored: key and value coerced, if there are two parameters, and the key hashable. */
  ghost predicate Stores(e: Entry, args: seq<Ty>, out: Entry, env: Env, lib: Lib) {
    && Hashable(out.key)
    && if |args| == 2 then
         Coerce(e.key, args[0], env, lib) == Good(out.key) && Coerce(e.value, args[1], env, lib) == Good(out.value)
       else out == e
  }

  lemma StoresExactly(e: Entry, args: seq<Ty>, out: Entry, env: Env, lib: Lib)
    ensures CoerceEntry(e, args, env, lib) == Good(out) <==> Stores(e, args, out, env, lib)
  {
    hide Hashable;
    assert Coerce(e.value, AnyT, env, lib) == Good(e.value);
  }

  predicate Distinct(entries: seq<Entry>) {
    forall i, j :: 0 <= i < j < |entries| ==> entries[i].key != entries[j].key
  }

  /** The dictionary that `d[key] = value` for each of the entries in turn makes. */
  function Filled(entries: seq<Entry>): seq<Entry> {
    if entries == [] then []
    else
      var last := entries[|entries| - 1];
      Put(Filled(entries[..|entries| - 1]), last.key, last.value)
  }

  lemma {:induction false} PutExactly(d: seq<Entry>, key: Val, value: Val)
    requires Distinct(d)
    ensures var r := Put(d, key, value);
            && Distinct(r)
            && (forall e :: e in r <==> e == Entry(key, value) || (e in d && e.key != key))
  {
    if d == [] {
    } else if d[0].key == key {
      assert Put(d, key, value) == [Entry(key, value)] + d[1..];
      MembersOfCons(d[0], d[1..]);
      MembersOfCons(Entry(key, value), d[1..]);
      assert forall i :: 1 <= i < |d| ==> d[i].key != key;
      assert d == [d[0]] + d[1..];
    } else {
      var rest := Put(d[1..], key, value);
      PutExactly(d[1..], key, value);
      assert d == [d[0]] + d[1..] && forall i :: 1 <= i < |d| ==> d[i] in d[1..];
      MembersOfCons(d[0], d[1..]);
      MembersOfCons(d[0], rest);
      DistinctCons(d[0], rest);
    }
  }

  lemma MembersOfCons(head: Entry, rest: seq<Entry>)
    ensures forall e :: e in [head] + rest <==> e == head || e in rest
  {
  }

  lemma DistinctCons(head: Entry, rest: seq<Entry>)
    requires Distinct(rest) && forall e :: e in rest ==> e.key != head.key
    ensures Distinct([head] + rest)
  {
  }

  /** The entry is there, and no later one has its key. */
  ghost predicate LastOfKey(entries: seq<Entry>, e: Entry) {
    exists i :: 0 <= i < |entries| && entries[i] == e && forall j :: i < j < |entries| ==> entries[j].key != e.key
  }

  lemma LastOneMore(init: seq<Entry>, last: Entry, e: Entry)
    ensures LastOfKey(init + [last], e) <==> e == last || (LastOfKey(init, e) && e.key != last.key)
  {
    var entries := init + [last];
    assert entries[|init|] == last && forall i :: 0 <= i < |init| ==> entries[i] == init[i];
  }

  /** In it, every key stands once, with the value of the last entry that has it. */
  lemma {:induction false} FilledExactly(entries: seq<Entry>, e: Entry)
    ensures Distinct(Filled(entries)) && (e in Filled(entries) <==> LastOfKey(entries, e))
  {
    hide LastOfKey, Put, Distinct;
    if entries == [] {
      NoneFilled(e);
    } else {
      var init, last := entries[..|entries| - 1], entries[|entries| - 1];
      FilledExactly(init, e);
      PutExactly(Filled(init), last.key, last.value);
      assert entries == init + [last] && last == Entry(last.key, last.value);
      LastOneMore(init, last, e);
    }
  }

  lemma NoneFilled(e: Entry)
    ensures Filled([]) == [] && Distinct([]) && !LastOfKey([], e)
  {
  }

  /** A dictionary type takes a dictionary exactly if every entry can be stored; the result is the dictionary that
      storing them in turn makes. */
  lemma DictExactly(v: Val, args: seq<Ty>, w: Val, env: Env, lib: Lib)
    ensures Coerce(v, DictT(args), env, lib) == Good(w) <==>
            && v.D? && w.D?
            && exists stored: seq<Entry> :: AllStored(v.entries, args, stored, env, lib) && w.entries == Filled(stored)
  {
    hide CoerceEntries, CoerceScalar, AllStored, Filled;
    if v.D? && w.D? {
      EntriesExactly(v.entries, args, [], w.entries, env, lib);
      EmptyFilled();
      forall stored: seq<Entry>
        ensures [] + stored == stored
      {
      }
    }
  }

  lemma EmptyFilled()
    ensures Filled([]) == []
  {
  }

  ghost predicate AllStored(entries: seq<Entry>, args: seq<Ty>, stored: seq<Entry>, env: Env, lib: Lib) {
    |stored| == |entries| && forall i :: 0 <= i < |stored| ==> Stores(entries[i], args, stored[i], env, lib)
  }

  lemma {:induction false} EntriesExactly(entries: seq<Entry>, args: seq<Ty>, before: seq<Entry>, out: seq<Entry>,
                                          env: Env, lib: Lib)
    ensures CoerceEntries(entries, args, env, lib, Filled(before)) == Good(out) <==>
            exists stored: seq<Entry> :: AllStored(entries, args, stored, env, lib) && out == Filled(before + stored)
    decreases entries
  {
    hide CoerceEntry, Stores, Filled;
    if entries == [] {
      assert before + [] == before;
      assert AllStored([], args, [], env, lib);
      forall stored: seq<Entry> | AllStored(entries, args, stored, env, lib)
        ensures stored == []
      {
      }
    } else {
      hide AllStored;
      var rest := entries[1..];
      var r := CoerceEntry(entries[0], args, env, lib);
      if r.Good? {
        StoresExactly(entries[0], args, r.value, env, lib);
        FilledOneMore(before, r.value);
        EntriesExactly(rest, args, before + [r.value], out, env, lib);
        if stored: seq<Entry> :| AllStored(rest, args, stored, env, lib) &&
                                 out == Filled(before + [r.value] + stored) {
          StoredCons(entries, args, r.value, stored, env, lib);
          assert before + ([r.value] + stored) == before + [r.value] + stored;
        }
      }
      forall stored: seq<Entry> | AllStored(entries, args, stored, env, lib) && out == Filled(before + stored)
        ensures r == Good(stored[0]) && AllStored(rest, args, stored[1..], env, lib)
        ensures out == Filled(before + [stored[0]] + stored[1..])
      {
        StoredHead(entries, args, stored, env, lib);
        assert before + [stored[0]] + stored[1..] == before + stored;
      }
    }
  }

  lemma StoredCons(entries: seq<Entry>, args: seq<Ty>, head: Entry, stored: seq<Entry>, env: Env, lib: Lib)
    requires entries != [] && Stores(entries[0], args, head, env, lib)
    requires AllStored(entries[1..], args, stored, env, lib)
    ensures AllStored(entries, args, [head] + stored, env, lib)
  {
    hide Stores;
    assert forall i :: 1 <= i < |entries| ==>
        ([head] + stored)[i] == stored[i - 1] && entries[i] == entries[1..][i - 1];
  }

  lemma StoredHead(entries: seq<Entry>, args: seq<Ty>, stored: seq<Entry>, env: Env, lib: Lib)
    requires entries != [] && AllStored(entries, args, stored, env, lib)
    ensures stored != [] && CoerceEntry(entries[0], args, env, lib) == Good(stored[0])
    ensures AllStored(entries[1..], args, stored[1..], env, lib)
  {
    hide Stores, CoerceEntry;
    StoresExactly(entries[0], args, stored[0], env, lib);
    assert forall i :: 0 <= i < |entries| - 1 ==>
        entries[1..][i] == entries[i + 1] && stored[1..][i] == stored[i + 1];
  }

  lemma FilledOneMore(before: seq<Entry>, e: Entry)
    ensures Filled(before + [e]) == Put(Filled(before), e.key, e.value)
  {
    assert (before + [e])[..|before|] == before;
  }
}
