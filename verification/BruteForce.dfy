/** `BruteForceProtector` of sovereign/security.py. Each call carries the moment it starts, the moment its handler
    has finished and the moment it is answered; what the handler does is an input. */
module BruteForce {
  import opened Errors

  type Key = string

  datatype Row = Row(attempts: int, blockedUntil: real, updatedAt: real)

  type Table = map<Key, Row>

  datatype Guard = Guard(
    maxAttempts: int, blockSeconds: int, failureStatuses: set<int>, baseDelay: real, maxDelay: real)
  {
    function Block(): real {
      blockSeconds as real
    }

    /** Rows not updated for this long are dropped. */
    function Horizon(): real {
      (if blockSeconds * 4 > 86400 then blockSeconds * 4 else 86400) as real
    }

    /** The number of failures that locks a key. */
    function Allowed(): nat {
      if maxAttempts < 1 then 1 else maxAttempts
    }
  }

  /** How the handler ends: a response, an `HTTPError`, or any other exception. */
  datatype Outcome = Responded(status: int) | Raised(status: int) | Crashed

  datatype Call = Call(key: Key, start: real, finish: real, answered: real, outcome: Outcome)

  datatype Reply = Refused | Handled

  predicate IsFailure(o: Outcome, g: Guard) {
    !o.Crashed? && o.status in g.failureStatuses
  }

  // ---- one call ----------------------------------------------------------------------------

  function Expired(r: Row, now: real): bool {
    r.blockedUntil != 0.0 && r.blockedUntil <= now
  }

  /** The table after `status`: an expired block is forgotten. */
  function Looked(t: Table, key: Key, now: real): Table {
    if key in t && Expired(t[key], now) then t - {key} else t
  }

  function BlockedUntil(t: Table, key: Key): real {
    if key in t then t[key].blockedUntil else 0.0
  }

  function Count(t: Table, key: Key): int {
    if key in t then t[key].attempts else 0
  }

  function FailedRow(t: Table, key: Key, now: real, g: Guard): Row {
    var attempts := Count(t, key) + 1;
    Row(attempts, if attempts >= g.maxAttempts then now + g.Block() else 0.0, now)
  }

  function Purge(t: Table, now: real, g: Guard): Table {
    map k | k in t && t[k].updatedAt >= now - g.Horizon() :: t[k]
  }

  function Failed(t: Table, key: Key, now: real, g: Guard): Table {
    Purge(t[key := FailedRow(t, key, now, g)], now, g)
  }

  function ReplyTo(t: Table, c: Call): Reply {
    if BlockedUntil(Looked(t, c.key, c.start), c.key) > c.start then Refused else Handled
  }

  function After(t: Table, c: Call, g: Guard): Table {
    var seen := Looked(t, c.key, c.start);
    if ReplyTo(t, c) == Refused || c.outcome.Crashed? then seen
    else if IsFailure(c.outcome, g) then Failed(seen, c.key, c.finish, g)
    else seen - {c.key}
  }

  class BruteForceProtector {
    const guard: Guard
    var rows: Table             // the table brute_force_attempts

    constructor (guard: Guard)
      ensures this.guard == guard && rows == map[]
    {
      this.guard, rows := guard, map[];
    }

    method Status(key: Key, now: real) returns (attempts: int, blockedUntil: real)
      modifies this`rows
      ensures rows == Looked(old(rows), key, now)
      ensures blockedUntil == BlockedUntil(rows, key) && attempts == (if key in rows then rows[key].attempts else 0)
    {
      if key !in rows {
        return 0, 0.0;
      }
      var row := rows[key];
      if row.blockedUntil != 0.0 && row.blockedUntil <= now {
        Reset(key);
        return 0, 0.0;
      }
      attempts, blockedUntil := row.attempts, row.blockedUntil;
    }

    method Reset(key: Key)
      modifies this`rows
      ensures rows == old(rows) - {key}
    {
      rows := map k | k in rows && k != key :: rows[k];
    }

    method RecordFailure(key: Key, now: real) returns (attempts: int, blockedUntil: real)
      modifies this`rows
      ensures rows == Failed(old(rows), key, now, guard)
      ensures Row(attempts, blockedUntil, now) == FailedRow(old(rows), key, now, guard)
    {
      attempts := (if key in rows then rows[key].attempts else 0) + 1;
      blockedUntil := if attempts >= guard.maxAttempts then now + guard.Block() else 0.0;
      rows := rows[key := Row(attempts, blockedUntil, now)];
      rows := map k | k in rows && !(rows[k].updatedAt < now - guard.Horizon()) :: rows[k];
    }

    /** The middleware around a handler that takes until `c.finish` and ends with `c.outcome`. The attempts so far
        slow the handler down, a failure that was raised slows its answer down. */
    method Run(c: Call) returns (reply: Reply, before: real, after: real, retryAfter: Option<int>)
      modifies this`rows
      ensures reply == ReplyTo(old(rows), c) && rows == After(old(rows), c, guard)
      ensures (before, after) == Pauses(old(rows), c, guard)
      ensures retryAfter == RetryAfter(old(rows), c, guard)
    {
      before, after, retryAfter := 0.0, 0.0, None;
      var attempts, blockedUntil := Status(c.key, c.start);
      if blockedUntil > c.start {
        return Refused, 0.0, 0.0, Some(WholeSeconds(blockedUntil - c.start));
      }
      reply := Handled;
      before := DelayFor(attempts, guard);
      match c.outcome
      case Crashed =>
      case Responded(status) =>
        if status in guard.failureStatuses {
          attempts, blockedUntil := RecordFailure(c.key, c.finish);
          if blockedUntil > c.answered {
            retryAfter := Some(WholeSeconds(blockedUntil - c.answered));
          }
        } else {
          Reset(c.key);
        }
      case Raised(status) =>
        if status in guard.failureStatuses {
          attempts, blockedUntil := RecordFailure(c.key, c.finish);
          after := DelayFor(attempts, guard);
          if blockedUntil > c.answered {
            retryAfter := Some(WholeSeconds(blockedUntil - c.answered));
          }
        } else {
          Reset(c.key);
        }
    }
  }

  // ---- pauses and the Retry-After header ---------------------------------------------------

  function Power(base: real, n: nat): real {
    if n == 0 then 1.0 else base * Power(base, n - 1)
  }

  /** `delay_for` */
  function DelayFor(attempts: int, g: Guard): real {
    if attempts < 3 then 0.0
    else
      var delay := Power(g.baseDelay, attempts - 2);
      if delay < g.maxDelay then delay else g.maxDelay
  }

  /** Before the handler and before its failure is passed on. */
  function Pauses(t: Table, c: Call, g: Guard): (real, real) {
    var seen := Looked(t, c.key, c.start);
    if ReplyTo(t, c) == Refused then (0.0, 0.0)
    else
      (DelayFor(Count(seen, c.key), g),
       if c.outcome.Raised? && IsFailure(c.outcome, g) then DelayFor(Count(seen, c.key) + 1, g) else 0.0)
  }

  /** `max(1, int(wait))` */
  function WholeSeconds(wait: real): int
    requires wait > 0.0
  {
    if wait.Floor < 1 then 1 else wait.Floor
  }

  function RetryAfter(t: Table, c: Call, g: Guard): Option<int> {
    var seen := Looked(t, c.key, c.start);
    if ReplyTo(t, c) == Refused then Some(WholeSeconds(BlockedUntil(seen, c.key) - c.start))
    else if IsFailure(c.outcome, g) && FailedRow(seen, c.key, c.finish, g).blockedUntil > c.answered then
      Some(WholeSeconds(FailedRow(seen, c.key, c.finish, g).blockedUntil - c.answered))
    else None
  }

  /** No pause is longer than the maximum, and more attempts never make it shorter. */
  lemma DelayGrows(m: int, n: int, g: Guard)
    requires m <= n && g.baseDelay >= 1.0 && g.maxDelay >= 0.0
    ensures 0.0 <= DelayFor(m, g) <= DelayFor(n, g) <= g.maxDelay
  {
    hide Power;
    if m >= 3 {
      PowerGrows(g.baseDelay, m - 2, n - 2);
    }
    if n >= 3 {
      PowerGrows(g.baseDelay, 0, n - 2);
    }
    PowerOfNothing(g.baseDelay);
  }

  lemma PowerOfNothing(base: real)
    ensures Power(base, 0) == 1.0
  {
  }

  lemma {:induction false} PowerGrows(base: real, m: nat, n: nat)
    requires m <= n && base >= 1.0
    ensures 1.0 <= Power(base, m) <= Power(base, n)
  {
    if n == 0 {
    } else {
      PowerGrows(base, if m == n then m - 1 else m, n - 1);
      TimesGrows(base, Power(base, n - 1));
    }
  }

  lemma TimesGrows(base: real, x: real)
    requires base >= 1.0 && x >= 1.0
    ensures base * x >= x
  {
  }

  /** With the base the class has by default, or any other from 1 on, a third failure makes for the first pause, each
      further one multiplies it, up to the maximum. */
  lemma {:induction false} DelayExactly(n: int, g: Guard)
    requires g.baseDelay >= 1.0 && g.maxDelay >= 0.0
    ensures n < 3 ==> DelayFor(n, g) == 0.0
    ensures n == 3 ==> DelayFor(n, g) == Least(g.baseDelay, g.maxDelay)
    ensures n > 3 ==> DelayFor(n, g) == Least(g.baseDelay * DelayFor(n - 1, g), g.maxDelay)
  {
    if n == 3 {
      assert Power(g.baseDelay, 1) == g.baseDelay * Power(g.baseDelay, 0);
    } else if n > 3 {
      assert Power(g.baseDelay, n - 2) == g.baseDelay * Power(g.baseDelay, n - 3);
      CappedStep(g.baseDelay, g.maxDelay, Power(g.baseDelay, n - 3));
    }
    hide Power;
  }

  lemma CappedStep(base: real, max: real, p: real)
    requires base >= 1.0 && max >= 0.0
    ensures Least(base * p, max) == Least(base * Least(p, max), max)
  {
    if p >= max {
      TimesMonotone(base, max, p);
      TimesNotLess(base, max);
    }
  }

  function Least(x: real, y: real): real {
    if x < y then x else y
  }

  lemma TimesMonotone(base: real, x: real, y: real)
    requires base >= 1.0
    ensures x <= y ==> base * x <= base * y
  {
  }

  lemma TimesNotLess(base: real, x: real)
    requires base >= 1.0 && x >= 0.0
    ensures base * x >= x
  {
  }

  /** The header holds the whole part of the time, at least one second. */
  lemma HeaderExactly(wait: real, s: int)
    requires wait > 0.0
    ensures WholeSeconds(wait) == s <==> if wait < 2.0 then s == 1 else s as real <= wait < s as real + 1.0
  {
  }

  /** Pauses and header of one call. A refused call is answered at once and told how long the block lasts. A call that
      is handled waits as long as the failures counted for its key make it, and if it raises another failure, its
      answer waits for that one, too; it is told of a block exactly if it has set one that still lasts. */
  lemma PausesExactly(t: Table, c: Call, g: Guard)
    requires 0.0 <= c.start && 0.0 <= c.answered && (c.key in t ==> 0.0 <= t[c.key].blockedUntil)
    ensures var failures := if c.key in t && t[c.key].blockedUntil == 0.0 then t[c.key].attempts else 0;
            var blocked := c.key in t && t[c.key].blockedUntil > c.start;
            && Pauses(t, c, g).0 == (if blocked then 0.0 else DelayFor(failures, g))
            && Pauses(t, c, g).1 == (if !blocked && c.outcome.Raised? && c.outcome.status in g.failureStatuses
                                     then DelayFor(failures + 1, g) else 0.0)
            && RetryAfter(t, c, g) ==
               (if blocked then Some(WholeSeconds(t[c.key].blockedUntil - c.start))
                else if IsFailure(c.outcome, g) && failures + 1 >= g.maxAttempts && c.answered < c.finish + g.Block()
                then Some(WholeSeconds(c.finish + g.Block() - c.answered))
                else None)
  {
    hide DelayFor;
  }

  /** Waiting the seconds of the header outlasts the block exactly when what is left of it is at most one second
      or a whole number of them: the header is rounded down. */
  lemma HeaderSuffices(wait: real)
    requires wait > 0.0
    ensures WholeSeconds(wait) as real >= wait <==> wait <= 1.0 || wait == wait.Floor as real
  {
  }

  // ---- whole runs --------------------------------------------------------------------------

  /** Calls one after the other, none before `now`. */
  predicate Sequential(run: seq<Call>, now: real) {
    run != [] ==> now <= run[0].start <= run[0].finish && Sequential(run[1..], run[0].finish)
  }

  function Replies(t: Table, run: seq<Call>, g: Guard): (r: seq<Reply>)
    ensures |r| == |run|
    decreases run
  {
    if run == [] then [] else [ReplyTo(t, run[0])] + Replies(After(t, run[0], g), run[1..], g)
  }

  function Final(t: Table, run: seq<Call>, g: Guard): Table
    decreases run
  {
    if run == [] then t else Final(After(t, run[0], g), run[1..], g)
  }

  /** The i-th reply is the reply to the i-th call in the state the calls before it have left. */
  lemma {:induction false} ReplyAt(t: Table, run: seq<Call>, i: nat, g: Guard)
    requires i < |run|
    ensures Replies(t, run, g)[i] == ReplyTo(Final(t, run[..i], g), run[i])
    decreases run
  {
    hide ReplyTo, After;
    if i > 0 {
      assert run[..i][1..] == run[1..][..i - 1] && run[..i][0] == run[0];
      ReplyAt(After(t, run[0], g), run[1..], i - 1, g);
    }
  }

  /** A call is refused exactly if its key's row holds a block that outlasts its start. */
  lemma RefusedExactly(t: Table, c: Call)
    requires 0.0 <= c.start
    ensures ReplyTo(t, c) == Refused <==> c.key in t && t[c.key].blockedUntil > c.start
  {
  }

  /** Of the rows of other keys, a failure that is counted drops exactly those that were last updated more than a day
      and more than four block times before; every other call leaves them all. */
  lemma OthersExactly(t: Table, c: Call, key: Key, g: Guard)
    requires key != c.key
    ensures var counted := ReplyTo(t, c) == Handled && IsFailure(c.outcome, g);
            var age := if key in t then c.finish - t[key].updatedAt else 0.0;
            && (key in After(t, c, g) <==>
                key in t && !(counted && age > 86400.0 && age > 4.0 * g.blockSeconds as real))
            && (key in After(t, c, g) ==> After(t, c, g)[key] == t[key])
  {
  }

  // ---- a block holds -----------------------------------------------------------------------

  lemma StepKeepsBlock(t: Table, c: Call, key: Key, g: Guard)
    requires key in t && t[key].blockedUntil == t[key].updatedAt + g.Block()
    requires t[key].updatedAt <= c.start <= c.finish && c.start < t[key].blockedUntil
    ensures c.key == key ==> ReplyTo(t, c) == Refused && After(t, c, g) == t
    ensures c.key != key && c.finish < t[key].blockedUntil ==> key in After(t, c, g) && After(t, c, g)[key] == t[key]
    ensures key in After(t, c, g) ==> After(t, c, g)[key] == t[key]
  {
  }

  /** Once a key is locked, every later call of it that starts before the end of the block is refused without
      reaching the handler; the block is not extended, and no other key's failure lifts it. */
  lemma {:induction false} BlockHolds(t: Table, run: seq<Call>, key: Key, r: Row, now: real, g: Guard)
    requires r.blockedUntil == r.updatedAt + g.Block() && r.updatedAt <= now
    requires Sequential(run, now)
    requires (key in t && t[key] == r) || now >= r.blockedUntil
    ensures forall i :: 0 <= i < |run| && run[i].key == key && run[i].start < r.blockedUntil ==>
              Replies(t, run, g)[i] == Refused
    ensures (key in t && t[key] == r && forall i :: 0 <= i < |run| ==> run[i].finish < r.blockedUntil) ==>
            key in Final(t, run, g) && Final(t, run, g)[key] == r
    decreases run
  {
    hide ReplyTo, After;
    if run == [] {
    } else {
      var c, rest := run[0], run[1..];
      if c.start < r.blockedUntil {
        StepKeepsBlock(t, c, key, g);
      }
      BlockHolds(After(t, c, g), rest, key, r, c.finish, g);
      assert forall i :: 1 <= i < |run| ==>
          run[i] == rest[i - 1] && Replies(t, run, g)[i] == Replies(After(t, c, g), rest, g)[i - 1];
    }
  }

  // ---- how many failures there can be ------------------------------------------------------

  /** The failures of `key` that reached the handler since it last did something else than fail or crash. */
  function History(h: seq<real>, t: Table, c: Call, key: Key, g: Guard): seq<real> {
    if c.key != key || ReplyTo(t, c) == Refused || c.outcome.Crashed? then h
    else if IsFailure(c.outcome, g) then h + [c.finish]
    else []
  }

  function Histories(h: seq<real>, t: Table, run: seq<Call>, key: Key, g: Guard): seq<real>
    decreases run
  {
    if run == [] then h else Histories(History(h, t, run[0], key, g), After(t, run[0], g), run[1..], key, g)
  }

  ghost predicate Sorted(h: seq<real>, now: real) {
    (forall i :: 0 <= i < |h| ==> h[i] <= now) && (forall i, j :: 0 <= i < j < |h| ==> h[i] <= h[j])
  }

  /** Any `Allowed() + 1` consecutive failures span the block time. */
  ghost predicate Spread(h: seq<real>, g: Guard) {
    forall i, j :: 0 <= i && j == i + g.Allowed() && j < |h| ==> h[i] + g.Block() <= h[j]
  }

  /** The row counts the latest failures; before those the block time has passed once. */
  ghost predicate Counts(t: Table, key: Key, h: seq<real>, now: real, g: Guard) {
    var n := Count(t, key);
    && 0 <= n <= |h| && n <= g.Allowed()
    && (key in t ==> n >= 1 && t[key].updatedAt == h[|h| - 1])
    && (key in t ==> t[key].blockedUntil == if n >= g.maxAttempts then t[key].updatedAt + g.Block() else 0.0)
    && (|h| > n ==> h[|h| - n - 1] + g.Block() <= (if n > 0 then h[|h| - n] else now))
  }

  ghost predicate Inv(t: Table, key: Key, h: seq<real>, now: real, g: Guard) {
    now > 0.0 && (forall i :: 0 <= i < |h| ==> h[i] > 0.0) &&
    Sorted(h, now) && Spread(h, g) && (g.blockSeconds >= 0 ==> Counts(t, key, h, now, g))
  }

  lemma LookKeeps(t: Table, key: Key, h: seq<real>, now: real, c: Call, g: Guard)
    requires Inv(t, key, h, now, g) && now <= c.start
    ensures Inv(Looked(t, c.key, c.start), key, h, c.start, g)
  {
  }

  lemma PurgeKeeps(t: Table, key: Key, h: seq<real>, now: real, g: Guard)
    requires Inv(t, key, h, now, g)
    ensures Inv(Purge(t, now, g), key, h, now, g)
  {
  }

  lemma FailKeeps(t: Table, key: Key, h: seq<real>, now: real, finish: real, g: Guard)
    requires Inv(t, key, h, now, g) && now <= finish
    requires BlockedUntil(t, key) <= now && (key in t ==> !Expired(t[key], now))
    ensures Inv(t[key := FailedRow(t, key, finish, g)], key, h + [finish], finish, g)
  {
    hide Spread;
    SpreadGrows(t, key, h, now, finish, g);
  }

  lemma SpreadGrows(t: Table, key: Key, h: seq<real>, now: real, finish: real, g: Guard)
    requires Inv(t, key, h, now, g) && now <= finish
    requires g.blockSeconds >= 0 ==> Count(t, key) < g.Allowed()
    ensures Spread(h + [finish], g)
  {
    var h' := h + [finish];
    forall i, j | 0 <= i && j == i + g.Allowed() && j < |h'|
      ensures h'[i] + g.Block() <= h'[j]
    {
      if j == |h| && g.blockSeconds >= 0 {
        assert i <= |h| - Count(t, key) - 1;
      }
    }
  }

  lemma StepKeeps(t: Table, key: Key, h: seq<real>, now: real, c: Call, g: Guard)
    requires Inv(t, key, h, now, g)
    requires now <= c.start <= c.finish
    ensures Inv(After(t, c, g), key, History(h, t, c, key, g), c.finish, g)
  {
    hide Inv, Purge, FailedRow;
    var seen := Looked(t, c.key, c.start);
    LookKeeps(t, key, h, now, c, g);
    TimePasses(seen, key, h, c.start, c.finish, g);
    if ReplyTo(t, c) == Handled && !c.outcome.Crashed? {
      if IsFailure(c.outcome, g) {
        var failed := seen[c.key := FailedRow(seen, c.key, c.finish, g)];
        if c.key == key {
          FailKeeps(seen, key, h, c.start, c.finish, g);
        } else {
          OtherRow(seen, failed, key, h, c.finish, g);
        }
        PurgeKeeps(failed, key, History(h, t, c, key, g), c.finish, g);
      } else if c.key == key {
        Cleared(seen - {key}, key, c.finish, g);
      } else {
        OtherRow(seen, seen - {c.key}, key, h, c.finish, g);
      }
    }
  }

  lemma TimePasses(t: Table, key: Key, h: seq<real>, now: real, later: real, g: Guard)
    requires Inv(t, key, h, now, g) && now <= later
    ensures Inv(t, key, h, later, g)
  {
  }

  lemma OtherRow(t: Table, t': Table, key: Key, h: seq<real>, now: real, g: Guard)
    requires Inv(t, key, h, now, g) && (key in t <==> key in t') && (key in t ==> t[key] == t'[key])
    ensures Inv(t', key, h, now, g)
  {
  }

  lemma Cleared(t: Table, key: Key, now: real, g: Guard)
    requires key !in t && now > 0.0
    ensures Inv(t, key, [], now, g)
  {
  }

  /** In every sequential run from an empty table, whatever the other keys do: any `maxAttempts + 1`
      consecutive failures of a key that reach the handler take at least `blockSeconds`. */
  lemma FailuresAreSpread(run: seq<Call>, key: Key, now: real, g: Guard)
    requires now > 0.0 && Sequential(run, now)
    ensures Spread(Histories([], map[], run, key, g), g)
  {
    RunKeeps(map[], run, key, [], now, g);
  }

  lemma {:induction false} HistoriesSnoc(h: seq<real>, t: Table, run: seq<Call>, c: Call, key: Key, g: Guard)
    ensures Histories(h, t, run + [c], key, g) == History(Histories(h, t, run, key, g), Final(t, run, g), c, key, g)
    ensures Final(t, run + [c], g) == After(Final(t, run, g), c, g)
    decreases run
  {
    hide History, After;
    if run == [] {
      assert [] + [c] == [c] && [c][1..] == [];
    } else {
      assert (run + [c])[0] == run[0] && (run + [c])[1..] == run[1..] + [c];
      HistoriesSnoc(History(h, t, run[0], key, g), After(t, run[0], g), run[1..], c, key, g);
    }
  }

  /** After every sequential run from an empty table a call is refused only within the block time of a failure of its
      key that was at least the `maxAttempts`-th in a row; every other call is handled. */
  lemma RefusedOnlyWhenBlocked(run: seq<Call>, c: Call, now: real, g: Guard)
    requires now > 0.0 && Sequential(run + [c], now)
    requires g.blockSeconds >= 0 && ReplyTo(Final(map[], run, g), c) == Refused
    ensures var h := Histories([], map[], run, c.key, g);
            |h| >= g.Allowed() && c.start < h[|h| - 1] + g.Block()
  {
    var last := LastMoment(run, c, now);
    InvAfter(map[], run, c.key, [], now, last, g);
  }

  /** When the last call before `c` has finished. */
  lemma {:induction false} LastMoment(run: seq<Call>, c: Call, now: real) returns (last: real)
    requires Sequential(run + [c], now)
    ensures Sequential(run, now) && now <= last <= c.start && last == if run == [] then now else run[|run| - 1].finish
  {
    if run == [] {
      assert run + [c] == [c];
      last := now;
    } else {
      assert (run + [c])[0] == run[0] && (run + [c])[1..] == run[1..] + [c];
      last := LastMoment(run[1..], c, run[0].finish);
    }
  }

  lemma {:induction false} InvAfter(t: Table, run: seq<Call>, key: Key, h: seq<real>, now: real, last: real, g: Guard)
    requires Inv(t, key, h, now, g) && Sequential(run, now)
    requires last == if run == [] then now else run[|run| - 1].finish
    ensures Inv(Final(t, run, g), key, Histories(h, t, run, key, g), last, g)
    decreases run
  {
    hide After, History;
    if run == [] {
    } else {
      var c := run[0];
      StepKeeps(t, key, h, now, c, g);
      InvAfter(After(t, c, g), run[1..], key, History(h, t, c, key, g), c.finish, last, g);
    }
  }

  lemma {:induction false} RunKeeps(t: Table, run: seq<Call>, key: Key, h: seq<real>, now: real, g: Guard)
    requires Inv(t, key, h, now, g) && Sequential(run, now)
    ensures Spread(Histories(h, t, run, key, g), g)
    decreases run
  {
    hide After, History;
    if run == [] {
    } else {
      var c := run[0];
      StepKeeps(t, key, h, now, c, g);
      RunKeeps(After(t, c, g), run[1..], key, History(h, t, c, key, g), c.finish, g);
    }
  }

  /** The failure that completes `maxAttempts` locks the key: through any later run every call of it that
      starts within the block time is refused. */
  lemma Lockout(t: Table, c: Call, run: seq<Call>, g: Guard)
    requires c.start <= c.finish && Sequential(run, c.finish)
    requires ReplyTo(t, c) == Handled && IsFailure(c.outcome, g)
    requires Count(Looked(t, c.key, c.start), c.key) + 1 >= g.maxAttempts
    ensures forall i :: 0 <= i < |run| && run[i].key == c.key && run[i].start < c.finish + g.Block() ==>
              Replies(After(t, c, g), run, g)[i] == Refused
  {
    var attempts := Count(Looked(t, c.key, c.start), c.key) + 1;
    BlockHolds(After(t, c, g), run, c.key, Row(attempts, c.finish + g.Block(), c.finish), c.finish, g);
  }
}
