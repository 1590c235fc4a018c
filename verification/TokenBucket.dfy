/** `TokenBucketLimiter` of sovereign/security.py, with floats as reals and the time as an argument. */
module TokenBucket {
  type Key = string

  datatype Bucket = Bucket(tokens: real, updated: real)

  datatype Answer = Answer(allowed: bool, tokens: real, retry: real)

  datatype Event = Event(key: Key, now: real)

  /** `requests` per `window` seconds; the constructor refuses anything not positive. */
  datatype RawLimit = Limit(requests: int, window: int) {
    function Capacity(): real {
      requests as real
    }

    function Rate(): (r: real)
      requires window > 0
      ensures requests > 0 ==> r > 0.0
    {
      requests as real / window as real
    }

    /** Rows older than this are dropped from the table. */
    function Horizon(): real {
      (if window * 4 > 3600 then window * 4 else 3600) as real
    }
  }

  type Limit = l: RawLimit | l.requests > 0 && l.window > 0 witness Limit(1, 1)

  function Min(a: real, b: real): real {
    if a <= b then a else b
  }

  // ---- one request -------------------------------------------------------------------------

  function Load(m: map<Key, Bucket>, e: Event, l: Limit): Bucket {
    if e.key in m then m[e.key] else Bucket(l.Capacity(), e.now)
  }

  /** What flows into a bucket in the given time. */
  function Gain(elapsed: real, l: Limit): real {
    elapsed * l.Rate()
  }

  lemma GainAdds(a: real, b: real, l: Limit)
    ensures Gain(a, l) + Gain(b, l) == Gain(a + b, l)
  {
  }

  lemma GainGrows(a: real, b: real, l: Limit)
    requires a <= b
    ensures Gain(a, l) <= Gain(b, l)
  {
  }

  /** Nothing in no time, a whole capacity in one window, one token in the inverse of the rate. */
  lemma GainValues(l: Limit)
    ensures Gain(0.0, l) == 0.0 && Gain(l.window as real, l) == l.Capacity()
  {
  }

  function Refill(b: Bucket, now: real, l: Limit): real {
    Min(l.Capacity(), b.tokens + Gain(now - b.updated, l))
  }

  function Decide(b: Bucket, now: real, l: Limit): Answer {
    var tokens := Refill(b, now, l);
    if tokens >= 1.0 then Answer(true, tokens - 1.0, 0.0) else Answer(false, tokens, (1.0 - tokens) / l.Rate())
  }

  function Store(m: map<Key, Bucket>, e: Event, l: Limit): map<Key, Bucket> {
    m[e.key := Bucket(Decide(Load(m, e, l), e.now, l).tokens, e.now)]
  }

  function Evict(m: map<Key, Bucket>, now: real, l: Limit): map<Key, Bucket> {
    map k | k in m && m[k].updated >= now - l.Horizon() :: m[k]
  }

  datatype Storage = Memory | Sqlite

  /** The dictionary or the table after one request. */
  function After(storage: Storage, m: map<Key, Bucket>, e: Event, l: Limit): map<Key, Bucket> {
    match storage case Memory => Store(m, e, l) case Sqlite => Evict(Store(m, e, l), e.now, l)
  }

  function AnswerTo(m: map<Key, Bucket>, e: Event, l: Limit): Answer {
    Decide(Load(m, e, l), e.now, l)
  }

  class TokenBucketLimiter {
    const limit: Limit
    var buckets: map<Key, Bucket>    // the dictionary
    var rows: map<Key, Bucket>       // the table rate_limits

    constructor (requests: int, window: int)
      requires requests > 0 && window > 0
      ensures limit == Limit(requests, window) && buckets == map[] && rows == map[]
    {
      limit := Limit(requests, window);
      buckets, rows := map[], map[];
    }

    method ConsumeMemory(key: Key, now: real) returns (allowed: bool, tokens: real, retry: real)
      modifies this`buckets
      ensures Answer(allowed, tokens, retry) == AnswerTo(old(buckets), Event(key, now), limit)
      ensures buckets == After(Memory, old(buckets), Event(key, now), limit)
    {
      var bucket := if key in buckets then buckets[key] else Bucket(limit.Capacity(), now);
      tokens := Min(limit.Capacity(), bucket.tokens + Gain(now - bucket.updated, limit));
      allowed := tokens >= 1.0;
      if allowed {
        tokens := tokens - 1.0;
      }
      buckets := buckets[key := Bucket(tokens, now)];
      retry := if allowed then 0.0 else (1.0 - tokens) / limit.Rate();
    }

    method ConsumeSqlite(key: Key, now: real) returns (allowed: bool, tokens: real, retry: real)
      modifies this`rows
      ensures Answer(allowed, tokens, retry) == AnswerTo(old(rows), Event(key, now), limit)
      ensures rows == After(Sqlite, old(rows), Event(key, now), limit)
    {
      hide Gain, RawLimit.Rate, RawLimit.Horizon;
      var row := if key in rows then rows[key] else Bucket(limit.Capacity(), now);
      tokens := Min(limit.Capacity(), row.tokens + Gain(now - row.updated, limit));
      allowed := tokens >= 1.0;
      if allowed {
        tokens := tokens - 1.0;
      }
      rows := rows[key := Bucket(tokens, now)];
      rows := map k | k in rows && !(rows[k].updated < now - limit.Horizon()) :: rows[k];
      retry := if allowed then 0.0 else (1.0 - tokens) / limit.Rate();
    }
  }

  // ---- whole runs --------------------------------------------------------------------------

  function Answers(storage: Storage, m: map<Key, Bucket>, run: seq<Event>, l: Limit): (r: seq<Answer>)
    ensures |r| == |run|
    decreases run
  {
    if run == [] then []
    else [AnswerTo(m, run[0], l)] + Answers(storage, After(storage, m, run[0], l), run[1..], l)
  }

  /** The dictionary or the table after a run. */
  function Final(storage: Storage, m: map<Key, Bucket>, run: seq<Event>, l: Limit): map<Key, Bucket>
    decreases run
  {
    if run == [] then m else Final(storage, After(storage, m, run[0], l), run[1..], l)
  }

  /** How many requests of one key a run admits. */
  function Admitted(run: seq<Event>, answers: seq<Answer>, key: Key): nat
    requires |run| == |answers|
  {
    if run == [] then 0
    else (if run[0].key == key && answers[0].allowed then 1 else 0) + Admitted(run[1..], answers[1..], key)
  }

  function Later(a: real, b: real): real {
    if a <= b then b else a
  }

  /** No timestamp is more than `d` behind the latest one so far. */
  predicate Late(run: seq<Event>, top: real, d: real) {
    run != [] ==> top - d <= run[0].now && Late(run[1..], Later(top, run[0].now), d)
  }

  predicate AtMostLate(run: seq<Event>, d: real) {
    run != [] ==> Late(run, run[0].now, d)
  }

  predicate Ordered(run: seq<Event>, start: real) {
    run != [] ==> start <= run[0].now && Ordered(run[1..], run[0].now)
  }

  lemma {:induction false} OrderedIsNotLate(run: seq<Event>, start: real)
    requires Ordered(run, start)
    ensures Late(run, start, 0.0)
    decreases run
  {
    if run == [] {
    } else {
      OrderedIsNotLate(run[1..], run[0].now);
    }
  }

  // ---- eviction is invisible ---------------------------------------------------------------

  /** The delay up to which an evicted bucket is full again before any request can miss it. */
  predicate Harmless(d: real, l: Limit) {
    2.0 * d + l.window as real <= 4.0 * l.window as real || 2.0 * d + l.window as real <= 3600.0
  }

  /** What has flowed in by `t` fills the bucket. */
  predicate FullBy(b: Bucket, t: real, l: Limit) {
    b.tokens + Gain(t - b.updated, l) >= l.Capacity()
  }

  /** A late request can push a bucket below zero, but not below what flows in during the delay. */
  predicate Sound(b: Bucket, top: real, d: real, l: Limit) {
    b.tokens + Gain(top - b.updated, l) >= 0.0 && b.tokens + Gain(d, l) >= 0.0
  }

  /** The table holds the dictionary's buckets except those that any request to come finds full. */
  ghost predicate Mirrors(rows: map<Key, Bucket>, buckets: map<Key, Bucket>, top: real, d: real, l: Limit) {
    && (forall k :: k in rows ==> k in buckets && rows[k] == buckets[k])
    && (forall k :: k in buckets ==> Sound(buckets[k], top, d, l))
    && (forall k :: k in buckets && k !in rows ==> FullBy(buckets[k], top - d, l))
  }

  lemma FullGrows(b: Bucket, t: real, later: real, l: Limit)
    requires FullBy(b, t, l) && t <= later
    ensures FullBy(b, later, l) && Refill(b, later, l) == l.Capacity()
  {
    hide Gain;
    GainGrows(t - b.updated, later - b.updated, l);
  }

  lemma SoundGrows(b: Bucket, top: real, later: real, d: real, l: Limit)
    requires Sound(b, top, d, l) && top <= later
    ensures Sound(b, later, d, l)
  {
    hide Gain;
    GainGrows(top - b.updated, later - b.updated, l);
  }

  lemma FreshIsFull(now: real, l: Limit)
    ensures Refill(Bucket(l.Capacity(), now), now, l) == l.Capacity()
  {
    hide Gain;
    GainValues(l);
  }

  /** A request at most `d` late leaves a sound bucket, whether it was admitted or refused. */
  lemma StoredSound(b: Bucket, now: real, top: real, d: real, l: Limit)
    requires Sound(b, top, d, l) || b == Bucket(l.Capacity(), now)
    requires d >= 0.0 && top - d <= now
    ensures Sound(Bucket(Decide(b, now, l).tokens, now), Later(top, now), d, l)
  {
    hide Gain;
    var top' := Later(top, now);
    GainValues(l);
    GainGrows(0.0, top' - now, l);
    GainGrows(top' - now, d, l);
    FreshIsFull(now, l);
    if Sound(b, top, d, l) {
      GainAdds(now - b.updated, top' - now, l);
      GainGrows(top - b.updated, top' - b.updated, l);
    }
  }

  /** A row old enough to be dropped belongs to a bucket that is full by the time of the latest request, less
      the delay. */
  lemma DroppedIsFull(b: Bucket, now: real, top: real, d: real, l: Limit)
    requires Sound(b, top, d, l) && d >= 0.0 && Harmless(d, l)
    requires b.updated < now - l.Horizon()
    ensures FullBy(b, Later(top, now) - d, l)
  {
    hide Gain;
    var w := l.window as real;
    GainValues(l);
    GainAdds(d, w, l);
    GainGrows(d + w, Later(top, now) - d - b.updated, l);
  }

  /** One request, at most `d` late, gets the same answer from both and keeps them alike. */
  lemma StepMirrors(rows: map<Key, Bucket>, buckets: map<Key, Bucket>, top: real, e: Event, d: real, l: Limit)
    requires Mirrors(rows, buckets, top, d, l)
    requires d >= 0.0 && Harmless(d, l) && top - d <= e.now
    ensures AnswerTo(rows, e, l) == AnswerTo(buckets, e, l)
    ensures Mirrors(After(Sqlite, rows, e, l), After(Memory, buckets, e, l), Later(top, e.now), d, l)
  {
    hide Refill, Gain, Sound, FullBy, Harmless, Decide;
    var top' := Later(top, e.now);
    SameAnswer(rows, buckets, top, e, d, l);
    var rows', buckets' := After(Sqlite, rows, e, l), After(Memory, buckets, e, l);
    StoredSound(Load(buckets, e, l), e.now, top, d, l);
    forall k | k in buckets'
      ensures Sound(buckets'[k], top', d, l)
    {
      if k != e.key { SoundGrows(buckets[k], top, top', d, l); }
    }
    forall k | k in buckets' && k !in rows'
      ensures FullBy(buckets'[k], top' - d, l)
    {
      if k in rows {
        DroppedIsFull(buckets[k], e.now, top, d, l);
      } else {
        FullGrows(buckets[k], top - d, top' - d, l);
      }
    }
  }

  lemma SameAnswer(rows: map<Key, Bucket>, buckets: map<Key, Bucket>, top: real, e: Event, d: real, l: Limit)
    requires Mirrors(rows, buckets, top, d, l) && top - d <= e.now
    ensures AnswerTo(rows, e, l) == AnswerTo(buckets, e, l)
  {
    hide Refill, Gain, Sound, FullBy;
    if e.key in buckets && e.key !in rows {
      FullGrows(buckets[e.key], top - d, e.now, l);
      FreshIsFull(e.now, l);
    }
  }

  /** The table that drops old rows answers every run, with timestamps at most `d` late, exactly like the
      dictionary that never drops anything: same admissions, same tokens, same retry hints. */
  lemma {:induction false} EvictionIsInvisible(rows: map<Key, Bucket>, buckets: map<Key, Bucket>, top: real,
                                               run: seq<Event>, d: real, l: Limit)
    requires Mirrors(rows, buckets, top, d, l)
    requires d >= 0.0 && Harmless(d, l) && Late(run, top, d)
    ensures Answers(Sqlite, rows, run, l) == Answers(Memory, buckets, run, l)
    decreases run
  {
    hide AnswerTo, Store, Evict, Mirrors, Harmless;
    if run == [] {
    } else {
      var e := run[0];
      StepMirrors(rows, buckets, top, e, d, l);
      var rows', buckets' := After(Sqlite, rows, e, l), After(Memory, buckets, e, l);
      EvictionIsInvisible(rows', buckets', Later(top, e.now), run[1..], d, l);
    }
  }

  // ---- the rate bound ----------------------------------------------------------------------

  /** No request can raise a bucket above its level plus the refill since then. */
  lemma Spend(b: Bucket, now: real, l: Limit)
    ensures var a := Decide(b, now, l);
            && a.tokens + (if a.allowed then 1.0 else 0.0) <= b.tokens + Gain(now - b.updated, l)
            && (a.allowed ==> 0.0 <= a.tokens <= l.Capacity() - 1.0)
  {
    hide Gain;
  }

  /** From a bucket at level `b.tokens`, a run that ends in an admitted request of the key admits at most
      that level plus the refill up to its end. */
  lemma {:induction false} Potential(m: map<Key, Bucket>, run: seq<Event>, key: Key, l: Limit)
    requires key in m && run != []
    requires var last := |run| - 1; run[last].key == key && Answers(Memory, m, run, l)[last].allowed
    ensures Admitted(run, Answers(Memory, m, run, l), key) as real
         <= m[key].tokens + Gain(run[|run| - 1].now - m[key].updated, l)
    decreases run
  {
    hide Decide, Evict, Gain;
    var e, rest := run[0], run[1..];
    var m' := After(Memory, m, e, l);
    var answers := Answers(Memory, m, run, l);
    assert answers[1..] == Answers(Memory, m', rest, l);
    if e.key == key {
      Spend(m[key], e.now, l);
    }
    if rest == [] {
      assert Admitted(run, answers, key) == 1;
    } else {
      Potential(m', rest, key, l);
      if e.key == key {
        GainAdds(e.now - m[key].updated, run[|run| - 1].now - e.now, l);
      }
    }
  }

  /** Between two admitted requests of one key, both included, at most `capacity + rate * elapsed` requests
      of that key are admitted: from any state of the dictionary, among any requests of other keys, and even
      when the timestamps do not arrive in order. */
  lemma RateBound(m: map<Key, Bucket>, run: seq<Event>, l: Limit)
    requires run != []
    requires var answers := Answers(Memory, m, run, l);
             answers[0].allowed && answers[|run| - 1].allowed && run[0].key == run[|run| - 1].key
    ensures Admitted(run, Answers(Memory, m, run, l), run[0].key) as real
         <= l.Capacity() + Gain(run[|run| - 1].now - run[0].now, l)
  {
    hide Decide, Evict, Gain;
    var e, rest := run[0], run[1..];
    var m' := After(Memory, m, e, l);
    var answers := Answers(Memory, m, run, l);
    assert answers[1..] == Answers(Memory, m', rest, l);
    GainValues(l);
    Spend(Load(m, e, l), e.now, l);
    if rest == [] {
      assert Admitted(run, answers, e.key) == 1;
    } else {
      Potential(m', rest, e.key, l);
    }
  }

  /** Between any two admitted requests of one key, both included, a run from an empty store admits at most
      `capacity + rate * elapsed` requests of that key. */
  ghost predicate KeepsRate(storage: Storage, run: seq<Event>, l: Limit) {
    var answers := Answers(storage, map[], run, l);
    forall i, j :: 0 <= i <= j < |run| && run[i].key == run[j].key && answers[i].allowed && answers[j].allowed ==>
      Admitted(run[i..j + 1], answers[i..j + 1], run[i].key) as real
      <= l.Capacity() + Gain(run[j].now - run[i].now, l)
  }

  lemma {:induction false} AnswersPrefix(storage: Storage, m: map<Key, Bucket>, run: seq<Event>, n: nat, l: Limit)
    requires n <= |run|
    ensures Answers(storage, m, run, l)[..n] == Answers(storage, m, run[..n], l)
    decreases n
  {
    hide After, AnswerTo;
    if n == 0 {
    } else {
      AnswersPrefix(storage, After(storage, m, run[0], l), run[1..], n - 1, l);
      assert run[..n][1..] == run[1..][..n - 1];
    }
  }

  lemma {:induction false} RateBetween(m: map<Key, Bucket>, run: seq<Event>, i: nat, j: nat, l: Limit)
    requires i <= j < |run| && run[i].key == run[j].key
    requires var answers := Answers(Memory, m, run, l); answers[i].allowed && answers[j].allowed
    ensures Admitted(run[i..j + 1], Answers(Memory, m, run, l)[i..j + 1], run[i].key) as real
         <= l.Capacity() + Gain(run[j].now - run[i].now, l)
    decreases i
  {
    hide After, AnswerTo, Gain, Admitted;
    var answers := Answers(Memory, m, run, l);
    if i == 0 {
      AnswersPrefix(Memory, m, run, j + 1, l);
      RateBound(m, run[..j + 1], l);
      assert run[0..j + 1] == run[..j + 1] && answers[0..j + 1] == answers[..j + 1];
    } else {
      var m' := After(Memory, m, run[0], l);
      RateBetween(m', run[1..], i - 1, j - 1, l);
      assert run[1..][i - 1..j] == run[i..j + 1];
      assert Answers(Memory, m', run[1..], l)[i - 1..j] == answers[i..j + 1];
    }
  }

  /** The dictionary keeps the rate on every run, in whatever order the timestamps arrive. */
  lemma MemoryKeepsRate(run: seq<Event>, l: Limit)
    ensures KeepsRate(Memory, run, l)
  {
    hide Answers, Gain, Admitted;
    var answers := Answers(Memory, map[], run, l);
    forall i, j | 0 <= i <= j < |run| && run[i].key == run[j].key && answers[i].allowed && answers[j].allowed
      ensures Admitted(run[i..j + 1], answers[i..j + 1], run[i].key) as real
           <= l.Capacity() + Gain(run[j].now - run[i].now, l)
    {
      RateBetween(map[], run, i, j, l);
    }
  }

  /** The table answers alike and keeps the same rate as long as timestamps are not too late ... */
  lemma SqliteRateBound(run: seq<Event>, d: real, l: Limit)
    requires AtMostLate(run, d) && d >= 0.0 && Harmless(d, l)
    ensures Answers(Sqlite, map[], run, l) == Answers(Memory, map[], run, l)
    ensures KeepsRate(Sqlite, run, l)
  {
    hide Answers, Gain, Admitted, Harmless;
    MemoryKeepsRate(run, l);
    if run == [] {
      assert Answers(Sqlite, map[], [], l) == Answers(Memory, map[], [], l) by { NoAnswers(l); }
    } else {
      EvictionIsInvisible(map[], map[], run[0].now, run, d, l);
    }
  }

  lemma NoAnswers(l: Limit)
    ensures Answers(Sqlite, map[], [], l) == [] == Answers(Memory, map[], [], l)
  {
  }

  /** ... in particular when they arrive in time order. */
  lemma SqliteInOrder(run: seq<Event>, start: real, l: Limit)
    requires Ordered(run, start)
    ensures Answers(Sqlite, map[], run, l) == Answers(Memory, map[], run, l) && KeepsRate(Sqlite, run, l)
  {
    hide Answers, KeepsRate;
    if run != [] {
      OrderedIsNotLate(run, run[0].now);
    }
    SqliteRateBound(run, 0.0, l);
  }

  // ---- the retry hint ----------------------------------------------------------------------

  /** When a bucket next holds a whole token. */
  function AdmitAt(b: Bucket, l: Limit): real {
    b.updated + (1.0 - b.tokens) / l.Rate()
  }

  lemma AdmittedFrom(b: Bucket, now: real, l: Limit)
    ensures Decide(b, now, l).allowed <==> now >= AdmitAt(b, l)
    ensures !Decide(b, now, l).allowed ==>
            AdmitAt(Bucket(Decide(b, now, l).tokens, now), l) == AdmitAt(b, l) == now + Decide(b, now, l).retry
  {
    hide Gain;
    var wait := (1.0 - b.tokens) / l.Rate();
    var gap := now - b.updated;
    GainInverse(1.0 - b.tokens, l);
    GainOrder(wait, gap, l);
    if gap < wait {
      var short := 1.0 - b.tokens - Gain(gap, l);
      GainAdds(gap, wait - gap, l);
      GainInverse(short, l);
      GainSame(short / l.Rate(), wait - gap, l);
    }
  }

  /** `x / rate` is the time in which `x` tokens flow in. */
  lemma GainInverse(x: real, l: Limit)
    ensures Gain(x / l.Rate(), l) == x
  {
  }

  lemma GainOrder(a: real, b: real, l: Limit)
    ensures a <= b <==> Gain(a, l) <= Gain(b, l)
  {
  }

  lemma GainSame(a: real, b: real, l: Limit)
    requires Gain(a, l) == Gain(b, l)
    ensures a == b
  {
    GainOrder(a, b, l);
    GainOrder(b, a, l);
  }

  /** After a refusal, through any number of further refused requests of the key and any requests of other
      keys, the key is admitted exactly from the announced moment on: polling never postpones it. */
  lemma {:induction false} RetryIsExact(m: map<Key, Bucket>, refused: Event, polls: seq<Event>, next: Event, l: Limit)
    requires !AnswerTo(m, refused, l).allowed && next.key == refused.key
    requires var m' := After(Memory, m, refused, l);
             forall i :: 0 <= i < |polls| && polls[i].key == refused.key ==> !Answers(Memory, m', polls, l)[i].allowed
    ensures AnswerTo(Final(Memory, After(Memory, m, refused, l), polls, l), next, l).allowed
       <==> next.now >= refused.now + AnswerTo(m, refused, l).retry
  {
    hide Decide, AdmitAt;
    AdmittedFrom(Load(m, refused, l), refused.now, l);
    var m' := After(Memory, m, refused, l);
    PollsAreFree(m', polls, refused.key, l);
    AdmittedFrom(Final(Memory, m', polls, l)[refused.key], next.now, l);
  }

  lemma {:induction false} PollsAreFree(m: map<Key, Bucket>, polls: seq<Event>, key: Key, l: Limit)
    requires key in m
    requires forall i :: 0 <= i < |polls| && polls[i].key == key ==> !Answers(Memory, m, polls, l)[i].allowed
    ensures key in Final(Memory, m, polls, l) && AdmitAt(Final(Memory, m, polls, l)[key], l) == AdmitAt(m[key], l)
    decreases polls
  {
    hide Decide, AdmitAt;
    if polls == [] {
    } else {
      var e, rest := polls[0], polls[1..];
      var answers := Answers(Memory, m, polls, l);
      var m' := After(Memory, m, e, l);
      assert forall i :: 0 <= i < |rest| ==>
          rest[i] == polls[i + 1] && Answers(Memory, m', rest, l)[i] == answers[i + 1];
      if e.key == key {
        assert !answers[0].allowed;
        AdmittedFrom(m[key], e.now, l);
      }
      PollsAreFree(m', rest, key, l);
    }
  }

  lemma {:induction false} AnswerAt(storage: Storage, m: map<Key, Bucket>, run: seq<Event>, j: nat, l: Limit)
    requires j < |run|
    ensures Answers(storage, m, run, l)[j] == AnswerTo(Final(storage, m, run[..j], l), run[j], l)
    decreases j
  {
    hide After, AnswerTo;
    if j == 0 {
      assert run[..0] == [];
    } else {
      AnswerAt(storage, After(storage, m, run[0], l), run[1..], j - 1, l);
      assert run[..j][1..] == run[1..][..j - 1];
    }
  }

  /** Request `j` comes after a refusal `i` of its key, with refusals of that key only in between. */
  ghost predicate Retries(run: seq<Event>, answers: seq<Answer>, i: nat, j: nat) {
    && i < j < |run| == |answers| && run[i].key == run[j].key
    && (forall k :: i <= k < j && run[k].key == run[i].key ==> !answers[k].allowed)
  }

  lemma {:induction false} RetryFirst(m: map<Key, Bucket>, run: seq<Event>, j: nat, l: Limit)
    requires Retries(run, Answers(Memory, m, run, l), 0, j)
    ensures var answers := Answers(Memory, m, run, l);
            answers[j].allowed <==> run[j].now >= run[0].now + answers[0].retry
  {
    var answers := Answers(Memory, m, run, l);
    var m', rest := After(Memory, m, run[0], l), run[1..];
    var polls := rest[..j - 1];
    assert answers[0] == AnswerTo(m, run[0], l) && answers[1..] == Answers(Memory, m', rest, l);
    AnswersPrefix(Memory, m', rest, j - 1, l);
    AnswerAt(Memory, m', rest, j - 1, l);
    hide After, AnswerTo, Answers, Final;
    assert forall k :: 0 <= k < |polls| ==>
        polls[k] == run[k + 1] && Answers(Memory, m', polls, l)[k] == answers[k + 1];
    RetryIsExact(m, run[0], polls, run[j], l);
  }

  lemma RetriesShift(run: seq<Event>, answers: seq<Answer>, i: nat, j: nat)
    requires i > 0 && Retries(run, answers, i, j)
    ensures 0 < i < j < |run| && run[i].key == run[j].key && Retries(run[1..], answers[1..], i - 1, j - 1)
  {
    assert forall k :: 0 < k < |run| ==> run[1..][k - 1] == run[k] && answers[1..][k - 1] == answers[k];
    forall k | i - 1 <= k < j - 1 && run[1..][k].key == run[1..][i - 1].key
      ensures !answers[1..][k].allowed
    {
      assert run[k + 1].key == run[i].key;
    }
  }

  /** The same within one run. */
  lemma {:induction false} RetryWithin(m: map<Key, Bucket>, run: seq<Event>, i: nat, j: nat, l: Limit)
    requires Retries(run, Answers(Memory, m, run, l), i, j)
    ensures var answers := Answers(Memory, m, run, l);
            answers[j].allowed <==> run[j].now >= run[i].now + answers[i].retry
    decreases i
  {
    var answers := Answers(Memory, m, run, l);
    assert i < j < |run| == |answers|;
    if i == 0 {
      RetryFirst(m, run, j, l);
    } else {
      var m', rest := After(Memory, m, run[0], l), run[1..];
      assert answers[1..] == Answers(Memory, m', rest, l);
      hide After, AnswerTo, Answers, Retries;
      RetriesShift(run, answers, i, j);
      assert rest[i - 1] == run[i] && rest[j - 1] == run[j];
      RetryWithin(m', rest, i - 1, j - 1, l);
    }
  }

  /** The table's hint is as exact, on runs whose timestamps are not too late. */
  lemma SqliteRetryIsExact(run: seq<Event>, d: real, i: nat, j: nat, l: Limit)
    requires AtMostLate(run, d) && d >= 0.0 && Harmless(d, l)
    requires Retries(run, Answers(Sqlite, map[], run, l), i, j)
    ensures var answers := Answers(Sqlite, map[], run, l);
            answers[j].allowed <==> run[j].now >= run[i].now + answers[i].retry
  {
    hide Answers, Harmless, KeepsRate, AtMostLate;
    SqliteRateBound(run, d, l);
    RetryWithin(map[], run, i, j, l);
  }

  // ---- the Retry-After header --------------------------------------------------------------

  /** `max(1, int(retry + 0.999))` */
  function RetryAfter(retry: real): int {
    var n := (retry + 0.999).Floor;
    if n < 1 then 1 else n
  }

  /** Waiting the whole seconds of the header is enough exactly when the hint is at most one second or its
      fraction is zero or at least a thousandth ... */
  lemma RetryAfterSuffices(retry: real)
    requires retry > 0.0
    ensures var fraction := retry - retry.Floor as real;
            RetryAfter(retry) as real >= retry <==> retry <= 1.0 || fraction == 0.0 || fraction >= 0.001
    ensures RetryAfter(retry) == 1 || 1.0 < RetryAfter(retry) as real <= retry + 0.999
  {
    var whole := retry.Floor;
    FloorIs(retry + 0.999, if retry - whole as real >= 0.001 then whole + 1 else whole);
  }

  lemma FloorIs(x: real, n: int)
    requires n as real <= x < n as real + 1.0
    ensures x.Floor == n
  {
    var f := x.Floor;
    assert f as real <= x < f as real + 1.0;
    assert (f < n + 1) && (n < f + 1);
  }

  /** ... and there are refusals after which it is not. */
  lemma RetryAfterCanBeShort()
    ensures var l := Limit(1, 2);
            var a := Decide(Bucket(0.0, 0.0), 0.9995, l);
            !a.allowed && RetryAfter(a.retry) as real < a.retry
  {
    var l: Limit := Limit(1, 2);
    assert l.Rate() == 0.5;
    var a := Decide(Bucket(0.0, 0.0), 0.9995, l);
    assert a.tokens == 0.49975;
    assert a.retry == 1.0005;
    assert (a.retry + 0.999).Floor == 1;
  }
}
