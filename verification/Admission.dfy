/** Which requests a token bucket admits (sovereign/security.py:52-77), said without buckets: an equivalence on every
    run, whatever the order of its timestamps. */
module Admission {
  import opened TokenBucket

  /** How many of the requests from `i` up to `n` are of this key and admitted. */
  function Passed(run: seq<Event>, answers: seq<Answer>, key: Key, i: nat, n: nat): nat
    requires n <= |run| == |answers|
    decreases n
  {
    if n <= i then 0
    else Passed(run, answers, key, i, n - 1) + (if run[n - 1].key == key && answers[n - 1].allowed then 1 else 0)
  }

  /** What request `i` of the key leaves for moment `t`, after the admissions from `i` up to `n`. */
  function Left(run: seq<Event>, answers: seq<Answer>, key: Key, i: nat, n: nat, t: real, l: Limit): real
    requires i < |run| == |answers| && n <= |run|
  {
    l.Capacity() + Gain(t - run[i].now, l) - Passed(run, answers, key, i, n) as real
  }

  /** `x` is the least of what the requests of the key before `n` leave for moment `t`. */
  ghost predicate Least(x: real, run: seq<Event>, answers: seq<Answer>, key: Key, n: nat, t: real, l: Limit)
    requires n <= |run| == |answers|
  {
    && (forall i :: 0 <= i < n && run[i].key == key ==> x <= Left(run, answers, key, i, n, t, l))
    && (exists i :: 0 <= i < n && run[i].key == key && x == Left(run, answers, key, i, n, t, l))
  }

  /** The bucket of a key holds what its earlier requests leave. */
  ghost predicate Holds(m: map<Key, Bucket>, run: seq<Event>, answers: seq<Answer>, key: Key, n: nat, l: Limit)
    requires n <= |run| == |answers|
  {
    if key in m then Least(m[key].tokens, run, answers, key, n, m[key].updated, l)
    else forall i :: 0 <= i < n ==> run[i].key != key
  }

  lemma PassedOther(run: seq<Event>, answers: seq<Answer>, key: Key, n: nat)
    requires n < |run| == |answers| && run[n].key != key
    ensures forall i :: 0 <= i <= n ==> Passed(run, answers, key, i, n + 1) == Passed(run, answers, key, i, n)
  {
  }

  lemma LeftLater(run: seq<Event>, answers: seq<Answer>, key: Key, i: nat, n: nat, t: real, u: real, l: Limit)
    requires i < |run| == |answers| && n <= |run|
    ensures Left(run, answers, key, i, n, t, l) + Gain(u - t, l) == Left(run, answers, key, i, n, u, l)
  {
    GainAdds(t - run[i].now, u - t, l);
    hide Gain;
  }

  lemma LeftNow(run: seq<Event>, answers: seq<Answer>, key: Key, n: nat, l: Limit)
    requires n < |run| == |answers|
    ensures Left(run, answers, key, n, n, run[n].now, l) == l.Capacity()
  {
    GainValues(l);
  }

  /** What the bucket is filled up to at its next request is the least of what all of them leave, that one included. */
  lemma RefillIsLeast(m: map<Key, Bucket>, run: seq<Event>, answers: seq<Answer>, n: nat, l: Limit)
    requires n < |run| == |answers| && Holds(m, run, answers, run[n].key, n, l)
    ensures var e := run[n];
            var x := Refill(Load(m, e, l), e.now, l);
            && (forall i :: 0 <= i <= n && run[i].key == e.key ==> x <= Left(run, answers, e.key, i, n, e.now, l))
            && (exists i :: 0 <= i <= n && run[i].key == e.key && x == Left(run, answers, e.key, i, n, e.now, l))
  {
    var e := run[n];
    LeftNow(run, answers, e.key, n, l);
    GainValues(l);
    if e.key in m {
      var b := m[e.key];
      forall i | 0 <= i < n && run[i].key == e.key
        ensures Left(run, answers, e.key, i, n, b.updated, l) + Gain(e.now - b.updated, l)
             == Left(run, answers, e.key, i, n, e.now, l)
      {
        LeftLater(run, answers, e.key, i, n, b.updated, e.now, l);
      }
      hide Gain, Left;
    }
  }

  lemma AfterIs(m: map<Key, Bucket>, run: seq<Event>, answers: seq<Answer>, n: nat, l: Limit)
    requires n < |run| == |answers| && answers[n] == AnswerTo(m, run[n], l)
    ensures var m' := After(Memory, m, run[n], l);
            && m'.Keys == m.Keys + {run[n].key}
            && m'[run[n].key] == Bucket(answers[n].tokens, run[n].now)
            && (forall k :: k in m && k != run[n].key ==> m'[k] == m[k])
            && answers[n].tokens
               == Refill(Load(m, run[n], l), run[n].now, l) - (if answers[n].allowed then 1.0 else 0.0)
            && (answers[n].allowed <==> Refill(Load(m, run[n], l), run[n].now, l) >= 1.0)
            && (answers[n].allowed ==> answers[n].retry == 0.0)
  {
  }

  lemma StepHolds(m: map<Key, Bucket>, run: seq<Event>, answers: seq<Answer>, key: Key, n: nat, l: Limit)
    requires n < |run| == |answers| && answers[n] == AnswerTo(m, run[n], l)
    requires Holds(m, run, answers, key, n, l)
    ensures Holds(After(Memory, m, run[n], l), run, answers, key, n + 1, l)
  {
    AfterIs(m, run, answers, n, l);
    hide After, AnswerTo, Refill, Load, Gain;
    var m' := After(Memory, m, run[n], l);
    if run[n].key != key {
      PassedOther(run, answers, key, n);
      if key in m {
        var t := m[key].updated;
        assert forall i :: 0 <= i < n ==>
            Left(run, answers, key, i, n + 1, t, l) == Left(run, answers, key, i, n, t, l);
        hide Left;
      }
    } else {
      RefillIsLeast(m, run, answers, n, l);
      var t := run[n].now;
      var one := if answers[n].allowed then 1.0 else 0.0;
      forall i | 0 <= i <= n
        ensures Left(run, answers, key, i, n + 1, t, l) == Left(run, answers, key, i, n, t, l) - one
      {
        assert Passed(run, answers, key, i, n + 1)
            == Passed(run, answers, key, i, n) + (if answers[n].allowed then 1 else 0);
      }
      hide Left;
    }
  }

  lemma {:induction false} RunHolds(run: seq<Event>, key: Key, n: nat, l: Limit)
    requires n <= |run|
    ensures Holds(Final(Memory, map[], run[..n], l), run, Answers(Memory, map[], run, l), key, n, l)
  {
    hide After, AnswerTo, Holds;
    var answers := Answers(Memory, map[], run, l);
    if n == 0 {
      assert run[..0] == [];
      NothingHolds(run, answers, key, l);
    } else {
      RunHolds(run, key, n - 1, l);
      AnswerAt(Memory, map[], run, n - 1, l);
      StepHolds(Final(Memory, map[], run[..n - 1], l), run, answers, key, n - 1, l);
      FinalStep(map[], run, n - 1, l);
    }
  }

  lemma NothingHolds(run: seq<Event>, answers: seq<Answer>, key: Key, l: Limit)
    requires |run| == |answers|
    ensures Holds(map[], run, answers, key, 0, l)
  {
  }

  lemma {:induction false} FinalStep(m: map<Key, Bucket>, run: seq<Event>, n: nat, l: Limit)
    requires n < |run|
    ensures Final(Memory, m, run[..n + 1], l) == After(Memory, Final(Memory, m, run[..n], l), run[n], l)
    decreases n
  {
    hide After;
    if n == 0 {
      assert run[..1][1..] == [] && run[..0] == [];
    } else {
      var m' := After(Memory, m, run[0], l);
      assert run[..n + 1][1..] == run[1..][..n] && run[..n][1..] == run[1..][..n - 1];
      FinalStep(m', run[1..], n - 1, l);
    }
  }

  lemma AllowedIff(m: map<Key, Bucket>, run: seq<Event>, answers: seq<Answer>, n: nat, l: Limit)
    requires n < |run| == |answers| && Holds(m, run, answers, run[n].key, n, l)
    requires answers[n] == AnswerTo(m, run[n], l)
    ensures answers[n].allowed <==>
            forall i :: 0 <= i <= n && run[i].key == run[n].key ==>
              Left(run, answers, run[n].key, i, n, run[n].now, l) >= 1.0
  {
    AfterIs(m, run, answers, n, l);
    RefillIsLeast(m, run, answers, n, l);
    hide After, AnswerTo, Refill, Load, Left;
  }

  lemma TokensLeast(m: map<Key, Bucket>, run: seq<Event>, answers: seq<Answer>, n: nat, l: Limit)
    requires n < |run| == |answers| && Holds(m, run, answers, run[n].key, n, l)
    requires answers[n] == AnswerTo(m, run[n], l)
    ensures Least(answers[n].tokens, run, answers, run[n].key, n + 1, run[n].now, l)
  {
    AfterIs(m, run, answers, n, l);
    StepHolds(m, run, answers, run[n].key, n, l);
    hide After, AnswerTo, Refill, Load, Least;
  }

  /** On every run, a request is admitted if and only if every request of its key up to it leaves a whole token: the
      capacity and what has flowed in since then, less the admissions in between. The tokens that are left behind are
      the least of what all these requests leave. */
  lemma AdmittedExactly(run: seq<Event>, j: nat, l: Limit)
    requires j < |run|
    ensures var answers := Answers(Memory, map[], run, l);
            var key, now := run[j].key, run[j].now;
            && (answers[j].allowed <==>
                forall i :: 0 <= i <= j && run[i].key == key ==>
                  Left(run, answers, key, i, j, now, l) >= 1.0)
            && Least(answers[j].tokens, run, answers, key, j + 1, now, l)
            && (answers[j].allowed ==> answers[j].retry == 0.0)
  {
    var answers := Answers(Memory, map[], run, l);
    var m := Final(Memory, map[], run[..j], l);
    RunHolds(run, run[j].key, j, l);
    AnswerAt(Memory, map[], run, j, l);
    hide AnswerTo, Gain, Answers, Final, Left, Least, Holds;
    AfterIs(m, run, answers, j, l);
    AllowedIff(m, run, answers, j, l);
    TokensLeast(m, run, answers, j, l);
  }

  /** So is the table's, on runs whose timestamps are not too late. */
  lemma SqliteAdmittedExactly(run: seq<Event>, d: real, j: nat, l: Limit)
    requires AtMostLate(run, d) && d >= 0.0 && Harmless(d, l) && j < |run|
    ensures var answers := Answers(Sqlite, map[], run, l);
            var key, now := run[j].key, run[j].now;
            && (answers[j].allowed <==>
                forall i :: 0 <= i <= j && run[i].key == key ==>
                  Left(run, answers, key, i, j, now, l) >= 1.0)
            && Least(answers[j].tokens, run, answers, key, j + 1, now, l)
            && (answers[j].allowed ==> answers[j].retry == 0.0)
  {
    hide Answers, Harmless, KeepsRate, AtMostLate;
    SqliteRateBound(run, d, l);
    AdmittedExactly(run, j, l);
  }
}
