/** How late a timestamp may arrive before the limiter's SQLite table, which drops old rows, answers differently
    from its dictionary. The clock is read before the lock is taken, so late timestamps do arrive. */
module LateRequests {
  import opened TokenBucket

  // ---- runs in two parts -------------------------------------------------------------------

  lemma {:induction false} AnswersConcat(m: map<Key, Bucket>, x: seq<Event>, y: seq<Event>, l: Limit)
    ensures Answers(Sqlite, m, x + y, l) == Answers(Sqlite, m, x, l) + Answers(Sqlite, Final(Sqlite, m, x, l), y, l)
    decreases |x|
  {
    hide After, AnswerTo;
    if x == [] {
      assert x + y == y;
    } else {
      assert (x + y)[1..] == x[1..] + y;
      AnswersConcat(After(Sqlite, m, x[0], l), x[1..], y, l);
    }
  }

  lemma {:induction false} FinalConcat(m: map<Key, Bucket>, x: seq<Event>, y: seq<Event>, l: Limit)
    ensures Final(Sqlite, m, x + y, l) == Final(Sqlite, Final(Sqlite, m, x, l), y, l)
    decreases |x|
  {
    hide After;
    if x == [] {
      assert x + y == y;
    } else {
      assert (x + y)[1..] == x[1..] + y;
      FinalConcat(After(Sqlite, m, x[0], l), x[1..], y, l);
    }
  }

  lemma {:induction false} AdmittedConcat(x: seq<Event>, ax: seq<Answer>, y: seq<Event>, ay: seq<Answer>, key: Key)
    requires |x| == |ax| && |y| == |ay|
    ensures Admitted(x + y, ax + ay, key) == Admitted(x, ax, key) + Admitted(y, ay, key)
    decreases |x|
  {
    if x == [] {
      assert x + y == y && ax + ay == ay;
    } else {
      assert (x + y)[1..] == x[1..] + y && (ax + ay)[1..] == ax[1..] + ay;
      AdmittedConcat(x[1..], ax[1..], y, ay, key);
    }
  }

  // ---- a burst -----------------------------------------------------------------------------

  /** `n` requests of one key at one moment. */
  function Burst(key: Key, t: real, n: nat): seq<Event> {
    if n == 0 then [] else [Event(key, t)] + Burst(key, t, n - 1)
  }

  lemma {:induction false} BurstLast(key: Key, t: real, n: nat)
    requires n > 0
    ensures |Burst(key, t, n)| == n && Burst(key, t, n)[0] == Burst(key, t, n)[n - 1] == Event(key, t)
  {
    if n == 1 {
    } else {
      BurstLast(key, t, n - 1);
    }
  }

  lemma {:induction false} BurstIsLate(key: Key, t: real, n: nat, rest: seq<Event>, top: real, d: real)
    requires d >= 0.0 && top - d <= t && Late(rest, Later(top, t), d) && Late(rest, top, d)
    ensures Late(Burst(key, t, n) + rest, top, d)
  {
    if n == 0 {
      assert Burst(key, t, n) + rest == rest;
    } else {
      assert (Burst(key, t, n) + rest)[1..] == Burst(key, t, n - 1) + rest;
      BurstIsLate(key, t, n - 1, rest, Later(top, t), d);
    }
  }

  /** A bucket at level `c` admits a burst of up to `c` requests, and goes down by as many. */
  lemma {:induction false} BurstAdmitted(m: map<Key, Bucket>, key: Key, t: real, n: nat, c: real, l: Limit)
    requires Refill(Load(m, Event(key, t), l), t, l) == c && n as real <= c <= l.Capacity()
    ensures var burst := Burst(key, t, n);
            var m' := Final(Sqlite, m, burst, l);
            && |burst| == n
            && (forall i :: 0 <= i < n ==> Answers(Sqlite, m, burst, l)[i].allowed)
            && Admitted(burst, Answers(Sqlite, m, burst, l), key) == n
            && (n > 0 ==> key in m' && m'[key] == Bucket(c - n as real, t))
    decreases n
  {
    hide Gain, Evict;
    if n == 0 {
    } else {
      var e := Event(key, t);
      var m1 := After(Sqlite, m, e, l);
      Kept(Store(m, e, l), t, l, key);
      assert m1[key] == Bucket(c - 1.0, t);
      GainValues(l);
      assert Refill(m1[key], t, l) == c - 1.0;
      BurstAdmitted(m1, key, t, n - 1, c - 1.0, l);
      assert Burst(key, t, n)[1..] == Burst(key, t, n - 1);
    }
  }

  /** What eviction keeps. */
  lemma Kept(m: map<Key, Bucket>, now: real, l: Limit, k: Key)
    ensures k in Evict(m, now, l) <==> k in m && m[k].updated >= now - l.Horizon()
    ensures k in Evict(m, now, l) ==> Evict(m, now, l)[k] == m[k]
  {
  }

  // ---- the run that breaks the rate --------------------------------------------------------

  /** The moment at which another key's request evicts the row. */
  function Evicting(l: Limit): real {
    (l.Horizon() + l.window as real) / 2.0
  }

  /** A burst that empties the bucket of "a", a late poll that backdates its row, a request of "b" that
      evicts the row, and a late burst. */
  function Breaking(d: real, l: Limit): seq<Event> {
    var late := Burst("a", Evicting(l) - d, l.requests);
    Burst("a", 0.0, l.requests) + ([Event("a", 0.0 - d), Event("b", Evicting(l))] + late)
  }

  lemma BreakingIsLate(d: real, l: Limit)
    requires d >= 0.0
    ensures AtMostLate(Breaking(d, l), d)
  {
    var s, n := Evicting(l), l.requests;
    var late := Burst("a", s - d, n);
    assert late + [] == late;
    BurstIsLate("a", s - d, n, [], s, d);
    var rest := [Event("a", 0.0 - d), Event("b", s)] + late;
    assert rest[1..] == [Event("b", s)] + late && rest[1..][1..] == late;
    assert s > 0.0;
    assert Late(rest[1..], 0.0, d);
    BurstIsLate("a", 0.0, n, rest, 0.0, d);
    BurstLast("a", 0.0, n);
  }

  /** The bucket is empty, then below zero and backdated, then forgotten. */
  lemma Forgotten(m: map<Key, Bucket>, d: real, l: Limit)
    requires "a" in m && m["a"] == Bucket(0.0, 0.0)
    requires d >= 0.0 && !Harmless(d, l)
    ensures var m2 := After(Sqlite, m, Event("a", 0.0 - d), l);
            "a" !in After(Sqlite, m2, Event("b", Evicting(l)), l)
  {
    hide Gain, Evict;
    var poll, other := Event("a", 0.0 - d), Event("b", Evicting(l));
    GainValues(l);
    GainGrows(0.0 - d, 0.0, l);
    Kept(Store(m, poll, l), poll.now, l, "a");
    var m2 := After(Sqlite, m, poll, l);
    assert m2["a"].updated == 0.0 - d;
    Kept(Store(m2, other, l), other.now, l, "a");
  }

  lemma BreakingAdmits(d: real, l: Limit)
    requires d >= 0.0 && !Harmless(d, l)
    ensures var run := Breaking(d, l);
            var answers := Answers(Sqlite, map[], run, l);
            && |run| == 2 * l.requests + 2
            && run[0] == Event("a", 0.0) && run[|run| - 1] == Event("a", Evicting(l) - d)
            && answers[0].allowed && answers[|run| - 1].allowed
            && Admitted(run, answers, "a") >= 2 * l.requests
  {
    hide Gain, Answers, Admitted, Final, Refill, Burst, After, Harmless;
    var n, s := l.requests, Evicting(l);
    var first, mid, last := Burst("a", 0.0, n), [Event("a", 0.0 - d), Event("b", s)], Burst("a", s - d, n);
    BurstLast("a", 0.0, n);
    BurstLast("a", s - d, n);
    FreshIsFull(0.0, l);
    BurstAdmitted(map[], "a", 0.0, n, l.Capacity(), l);
    var m1 := Final(Sqlite, map[], first, l);
    Forgotten(m1, d, l);
    var m3 := Final(Sqlite, m1, mid, l);
    TwoSteps(m1, mid[0], mid[1], l);
    FreshIsFull(s - d, l);
    BurstAdmitted(m3, "a", s - d, n, l.Capacity(), l);
    AnswersConcat(map[], first, mid + last, l);
    AnswersConcat(m1, mid, last, l);
    var ax, am, ay := Answers(Sqlite, map[], first, l), Answers(Sqlite, m1, mid, l), Answers(Sqlite, m3, last, l);
    assert Answers(Sqlite, map[], Breaking(d, l), l) == ax + (am + ay);
    AdmittedConcat(first, ax, mid + last, am + ay, "a");
    AdmittedConcat(mid, am, last, ay, "a");
  }

  lemma TwoSteps(m: map<Key, Bucket>, x: Event, y: Event, l: Limit)
    ensures Final(Sqlite, m, [x, y], l) == After(Sqlite, After(Sqlite, m, x, l), y, l)
  {
    hide After;
    assert [x, y][1..] == [y] && [y][1..] == [];
    var m' := After(Sqlite, m, x, l);
    assert Final(Sqlite, After(Sqlite, m', y, l), [], l) == After(Sqlite, m', y, l);
  }

  lemma TooMany(run: seq<Event>, l: Limit)
    requires run != []
    requires var answers := Answers(Sqlite, map[], run, l);
             var last := |run| - 1;
             && run[0].key == run[last].key && answers[0].allowed && answers[last].allowed
             && Admitted(run, answers, run[0].key) as real > l.Capacity() + Gain(run[last].now - run[0].now, l)
    ensures !KeepsRate(Sqlite, run, l)
  {
    hide Gain, Answers, Admitted;
    var answers := Answers(Sqlite, map[], run, l);
    var last := |run| - 1;
    assert run[0..last + 1] == run && answers[0..last + 1] == answers;
  }

  /** Beyond the limit, for every number of requests and every window, a run at most that late breaks the rate. */
  lemma LateBreaks(d: real, l: Limit)
    requires d >= 0.0 && !Harmless(d, l)
    ensures AtMostLate(Breaking(d, l), d) && !KeepsRate(Sqlite, Breaking(d, l), l)
  {
    BreakingIsLate(d, l);
    BreakingAdmits(d, l);
    ShortEnough(d, l);
    hide Gain, Answers, Admitted, Breaking, AtMostLate, KeepsRate, Harmless;
    TooMany(Breaking(d, l), l);
  }

  /** Too little flows in before the second burst. */
  lemma ShortEnough(d: real, l: Limit)
    requires !Harmless(d, l)
    ensures Gain(Evicting(l) - d, l) < l.Capacity()
  {
    hide Gain;
    GainValues(l);
    GainOrder(l.window as real, Evicting(l) - d, l);
  }

  /** The exact condition. For every bound `d` on the delay of timestamps, the table answers every run that
      respects it like the dictionary, and keeps the rate on every such run, if and only if twice the delay and
      one window together do not exceed the age at which rows are dropped. */
  lemma LatenessExactly(d: real, l: Limit)
    requires d >= 0.0
    ensures Harmless(d, l) <==>
            forall run: seq<Event> :: AtMostLate(run, d) ==>
              Answers(Sqlite, map[], run, l) == Answers(Memory, map[], run, l)
    ensures Harmless(d, l) <==> forall run: seq<Event> :: AtMostLate(run, d) ==> KeepsRate(Sqlite, run, l)
  {
    hide Answers, KeepsRate, AtMostLate, Harmless;
    if Harmless(d, l) {
      forall run: seq<Event> | AtMostLate(run, d)
        ensures Answers(Sqlite, map[], run, l) == Answers(Memory, map[], run, l) && KeepsRate(Sqlite, run, l)
      {
        SqliteRateBound(run, d, l);
      }
    } else {
      LateBreaks(d, l);
      MemoryKeepsRate(Breaking(d, l), l);
      SameAnswersSameRate(Breaking(d, l), l);
    }
  }

  lemma SameAnswersSameRate(run: seq<Event>, l: Limit)
    requires KeepsRate(Memory, run, l)
    ensures Answers(Sqlite, map[], run, l) == Answers(Memory, map[], run, l) ==> KeepsRate(Sqlite, run, l)
  {
    hide Answers, Admitted, Gain;
  }
}
