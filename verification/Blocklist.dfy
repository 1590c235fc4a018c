/** `SQLiteJWTBlocklist` of sovereign/sessions.py: a table of revoked token ids behind a cache with a time to
    live. The table compares expiries with the wall clock, the cache with the monotonic clock. */
module Blocklist {
  datatype Row = Row(exp: int, revokedAt: int, reason: string)

  datatype Entry = Entry(revoked: bool, until: real)

  type Rows = map<string, Row>
  type Cache = map<string, Entry>

  // ---- the operations on values ------------------------------------------------------------

  predicate Live(rows: Rows, jti: string, now: int) {
    jti in rows && rows[jti].exp >= now
  }

  predicate Fresh(cache: Cache, jti: string, mono: real) {
    jti in cache && cache[jti].until > mono
  }

  function Answer(rows: Rows, cache: Cache, jti: string, mono: real, now: int): bool {
    jti != "" && if Fresh(cache, jti, mono) then cache[jti].revoked else Live(rows, jti, now)
  }

  function CacheAfter(rows: Rows, cache: Cache, jti: string, mono: real, now: int, ttl: real): Cache {
    if jti == "" || Fresh(cache, jti, mono) then cache else cache[jti := Entry(Live(rows, jti, now), mono + ttl)]
  }

  function Unexpired(rows: Rows, now: int): Rows {
    map k | k in rows && rows[k].exp >= now :: rows[k]
  }

  /** The table, which other instances may share. */
  class Database {
    var rows: Rows

    constructor ()
      ensures rows == map[]
    {
      rows := map[];
    }
  }

  class SQLiteJWTBlocklist {
    const db: Database
    const cacheTtl: real
    var cache: Cache

    constructor (db: Database, cacheTtl: real)
      ensures this.db == db && this.cacheTtl == cacheTtl && cache == map[]
    {
      this.db, this.cacheTtl, cache := db, cacheTtl, map[];
    }

    /** False, for the `ValueError` about an empty id, and nothing done. */
    method Revoke(jti: string, exp: int, reason: string, now: int, mono: real) returns (ok: bool)
      modifies this`cache, db
      ensures ok <==> jti != ""
      ensures db.rows == if ok then old(db.rows)[jti := Row(exp, now, reason)] else old(db.rows)
      ensures cache == if ok then old(cache)[jti := Entry(true, mono + cacheTtl)] else old(cache)
    {
      if jti == "" {
        return false;
      }
      db.rows := db.rows[jti := Row(exp, now, reason)];
      cache := cache[jti := Entry(true, mono + cacheTtl)];
      ok := true;
    }

    method IsRevoked(jti: string, mono: real, now: int) returns (revoked: bool)
      modifies this`cache
      ensures revoked == Answer(db.rows, old(cache), jti, mono, now)
      ensures cache == CacheAfter(db.rows, old(cache), jti, mono, now, cacheTtl)
    {
      if jti == "" {
        return false;
      }
      if jti in cache && cache[jti].until > mono {
        return cache[jti].revoked;
      }
      revoked := jti in db.rows && db.rows[jti].exp >= now;
      cache := cache[jti := Entry(revoked, mono + cacheTtl)];
    }

    method CleanupExpired(now: int) returns (removed: int)
      modifies this`cache, db
      ensures db.rows == Unexpired(old(db.rows), now) && cache == map[]
      ensures removed == |set k | k in old(db.rows) && old(db.rows)[k].exp < now|
    {
      removed := |set k | k in db.rows && db.rows[k].exp < now|;
      db.rows := map k | k in db.rows && !(db.rows[k].exp < now) :: db.rows[k];
      cache := map[];
    }
  }

  // ---- runs --------------------------------------------------------------------------------

  datatype Op =
    | Revoke(jti: string, exp: int, reason: string)
    | Lookup(jti: string)
    | Cleanup
    | ForeignRevoke(jti: string, exp: int)      // by another instance on the same table
    | ForeignCleanup

  datatype Event = Event(op: Op, now: int, mono: real)

  datatype Revocation = Revocation(exp: int, mono: real)

  /** Table and cache, with two records kept for the claims: the latest revocation of each id by anyone, and
      the latest moment at which this instance revoked it or saw it revoked in the table. */
  datatype World = World(rows: Rows, cache: Cache, truth: map<string, Revocation>, seen: map<string, real>)

  const START := World(map[], map[], map[], map[])

  /** What an ideal list would answer: the latest revocation has not expired. */
  predicate Revoked(w: World, jti: string, now: int) {
    jti in w.truth && w.truth[jti].exp >= now
  }

  predicate Saw(w: World, e: Event) {
    (e.op.Revoke? && e.op.jti != "") ||
    (e.op.Lookup? && e.op.jti != "" && !Fresh(w.cache, e.op.jti, e.mono) && Live(w.rows, e.op.jti, e.now))
  }

  function Step(w: World, e: Event, ttl: real): World {
    var seen := if Saw(w, e) then w.seen[e.op.jti := e.mono] else w.seen;
    match e.op
    case Revoke(jti, exp, reason) =>
      if jti == "" then w
      else World(w.rows[jti := Row(exp, e.now, reason)], w.cache[jti := Entry(true, e.mono + ttl)],
                 w.truth[jti := Revocation(exp, e.mono)], seen)
    case Lookup(jti) => w.(cache := CacheAfter(w.rows, w.cache, jti, e.mono, e.now, ttl), seen := seen)
    case Cleanup => w.(rows := Unexpired(w.rows, e.now), cache := map[])
    case ForeignRevoke(jti, exp) =>
      if jti == "" then w
      else w.(rows := w.rows[jti := Row(exp, e.now, "")], truth := w.truth[jti := Revocation(exp, e.mono)])
    case ForeignCleanup => w.(rows := Unexpired(w.rows, e.now))
  }

  function Run(w: World, run: seq<Event>, ttl: real): World
    decreases run
  {
    if run == [] then w else Run(Step(w, run[0], ttl), run[1..], ttl)
  }

  /** Both clocks never go back. */
  predicate Ordered(run: seq<Event>, now: int, mono: real) {
    run != [] ==> now <= run[0].now && mono <= run[0].mono && Ordered(run[1..], run[0].now, run[0].mono)
  }

  predicate NoForeignRevoke(run: seq<Event>) {
    forall i :: 0 <= i < |run| ==> !run[i].op.ForeignRevoke?
  }

  // ---- invariants --------------------------------------------------------------------------

  /** The table holds the latest revocation of the id, unless that has expired. */
  predicate RowTrue(w: World, j: string, now: int) {
    && (j in w.rows ==> j in w.truth && w.rows[j].exp == w.truth[j].exp)
    && (j in w.truth && j !in w.rows ==> w.truth[j].exp < now)
  }

  /** A cached "revoked" goes back to a sighting, a cached "not revoked" can only be outdated by a later
      revocation; neither lives longer than the time to live. */
  predicate EntryTrue(w: World, j: string, now: int, mono: real, ttl: real) {
    j in w.cache ==>
      var until := w.cache[j].until;
      && until <= mono + ttl
      && (w.cache[j].revoked ==> j in w.truth && j in w.seen && until <= w.seen[j] + ttl)
      && (!w.cache[j].revoked && Revoked(w, j, now) ==> until <= w.truth[j].mono + ttl)
  }

  ghost predicate Inv(w: World, now: int, mono: real, ttl: real) {
    forall j: string :: RowTrue(w, j, now) && EntryTrue(w, j, now, mono, ttl)
  }

  lemma RowStep(w: World, j: string, now: int, e: Event, ttl: real)
    requires RowTrue(w, j, now) && now <= e.now
    ensures RowTrue(Step(w, e, ttl), j, e.now)
  {
    hide CacheAfter;
  }

  lemma EntryStep(w: World, j: string, now: int, mono: real, e: Event, ttl: real)
    requires RowTrue(w, j, now) && EntryTrue(w, j, now, mono, ttl) && now <= e.now && mono <= e.mono
    ensures EntryTrue(Step(w, e, ttl), j, e.now, e.mono, ttl)
  {
    hide Unexpired;
    assert Live(w.rows, j, e.now) <==> Revoked(w, j, e.now);
    match e.op
    case Revoke(_, _, _) =>
    case Lookup(_) =>
    case Cleanup =>
    case ForeignRevoke(_, _) =>
    case ForeignCleanup =>
  }

  lemma StepKeeps(w: World, now: int, mono: real, e: Event, ttl: real)
    requires Inv(w, now, mono, ttl) && now <= e.now && mono <= e.mono
    ensures Inv(Step(w, e, ttl), e.now, e.mono, ttl)
  {
    hide Step, RowTrue, EntryTrue;
    forall j: string
      ensures RowTrue(Step(w, e, ttl), j, e.now) && EntryTrue(Step(w, e, ttl), j, e.now, e.mono, ttl)
    {
      assert RowTrue(w, j, now) && EntryTrue(w, j, now, mono, ttl);
      RowStep(w, j, now, e, ttl);
      EntryStep(w, j, now, mono, e, ttl);
    }
  }

  lemma {:induction false} RunKeeps(w: World, run: seq<Event>, now: int, mono: real, ttl: real)
    requires Inv(w, now, mono, ttl) && Ordered(run, now, mono)
    ensures var last := |run| - 1;
            if run == [] then Inv(w, now, mono, ttl) else Inv(Run(w, run, ttl), run[last].now, run[last].mono, ttl)
    decreases run
  {
    hide Inv, Step;
    if run == [] {
    } else {
      var e := run[0];
      StepKeeps(w, now, mono, e, ttl);
      RunKeeps(Step(w, e, ttl), run[1..], e.now, e.mono, ttl);
    }
  }

  /** The table never lies: a row is live exactly when the latest revocation has not expired, whatever was
      cleaned up in between. */
  lemma TableIsExact(run: seq<Event>, now: int, mono: real, jti: string, later: int, ttl: real)
    requires run != [] && Ordered(run, now, mono) && run[|run| - 1].now <= later
    ensures var w := Run(START, run, ttl); Live(w.rows, jti, later) <==> Revoked(w, jti, later)
  {
    RunKeeps(START, run, now, mono, ttl);
    assert RowTrue(Run(START, run, ttl), jti, run[|run| - 1].now);
  }

  /** A wrong "revoked" is given only for an id whose latest revocation has expired, and for less than the
      time to live after it was last revoked here or seen in the table. */
  lemma WrongYes(run: seq<Event>, now: int, mono: real, jti: string, later: int, laterMono: real, ttl: real)
    requires run != [] && Ordered(run, now, mono)
    requires run[|run| - 1].now <= later && run[|run| - 1].mono <= laterMono
    requires var w := Run(START, run, ttl); Answer(w.rows, w.cache, jti, laterMono, later) && !Revoked(w, jti, later)
    ensures var w := Run(START, run, ttl);
            jti in w.truth && w.truth[jti].exp < later && jti in w.seen && laterMono < w.seen[jti] + ttl
  {
    RunKeeps(START, run, now, mono, ttl);
    assert EntryTrue(Run(START, run, ttl), jti, run[|run| - 1].now, run[|run| - 1].mono, ttl);
    TableIsExact(run, now, mono, jti, later, ttl);
  }

  /** A wrong "not revoked" never outlives the revocation it misses by the time to live. */
  lemma WrongNo(run: seq<Event>, now: int, mono: real, jti: string, later: int, laterMono: real, ttl: real)
    requires run != [] && Ordered(run, now, mono) && jti != ""
    requires run[|run| - 1].now <= later && run[|run| - 1].mono <= laterMono
    requires var w := Run(START, run, ttl); !Answer(w.rows, w.cache, jti, laterMono, later) && Revoked(w, jti, later)
    ensures var w := Run(START, run, ttl); laterMono < w.truth[jti].mono + ttl
  {
    RunKeeps(START, run, now, mono, ttl);
    assert EntryTrue(Run(START, run, ttl), jti, run[|run| - 1].now, run[|run| - 1].mono, ttl);
    TableIsExact(run, now, mono, jti, later, ttl);
  }

  /** For the time to live after a look at the table its answer is given again, whatever other instances do, and for
      any other ids that are looked up. */
  lemma {:induction false} AnswerIsKept(w: World, at: Event, run: seq<Event>, later: int, laterMono: real, ttl: real)
    requires at.op.Lookup? && !Fresh(w.cache, at.op.jti, at.mono) && laterMono < at.mono + ttl
    requires forall i :: 0 <= i < |run| ==>
               || run[i].op.ForeignRevoke? || run[i].op.ForeignCleanup?
               || (run[i].op.Lookup? && run[i].op.jti != at.op.jti)
    ensures var w' := Run(Step(w, at, ttl), run, ttl);
            var answer := Answer(w.rows, w.cache, at.op.jti, at.mono, at.now);
            Answer(w'.rows, w'.cache, at.op.jti, laterMono, later) == answer
  {
    EntryIsKept(Step(w, at, ttl), at.op.jti, run, ttl);
  }

  lemma {:induction false} EntryIsKept(w: World, jti: string, run: seq<Event>, ttl: real)
    requires jti in w.cache || jti == ""
    requires forall i :: 0 <= i < |run| ==>
               || run[i].op.ForeignRevoke? || run[i].op.ForeignCleanup?
               || (run[i].op.Lookup? && run[i].op.jti != jti)
    ensures var w' := Run(w, run, ttl); jti != "" ==> jti in w'.cache && w'.cache[jti] == w.cache[jti]
    decreases run
  {
    if run == [] {
    } else {
      EntryIsKept(Step(w, run[0], ttl), jti, run[1..], ttl);
    }
  }

  /** With no other instance revoking, "not revoked" is never wrong. */
  ghost predicate NoMiss(w: World, now: int) {
    forall j :: j in w.cache && !w.cache[j].revoked ==> !Revoked(w, j, now)
  }

  lemma StepMissesNothing(w: World, now: int, mono: real, e: Event, ttl: real)
    requires Inv(w, now, mono, ttl) && NoMiss(w, now) && now <= e.now && mono <= e.mono && !e.op.ForeignRevoke?
    ensures NoMiss(Step(w, e, ttl), e.now)
  {
    forall j | j in Step(w, e, ttl).cache && !Step(w, e, ttl).cache[j].revoked
      ensures !Revoked(Step(w, e, ttl), j, e.now)
    {
      assert RowTrue(w, j, now);
      assert Live(w.rows, j, e.now) <==> Revoked(w, j, e.now);
    }
  }

  lemma {:induction false} RunMissesNothing(w: World, run: seq<Event>, now: int, mono: real, ttl: real)
    requires Inv(w, now, mono, ttl) && NoMiss(w, now) && Ordered(run, now, mono) && NoForeignRevoke(run)
    ensures NoMiss(Run(w, run, ttl), if run == [] then now else run[|run| - 1].now)
    decreases run
  {
    hide Inv, Step, NoMiss;
    if run == [] {
    } else {
      var e := run[0];
      StepKeeps(w, now, mono, e, ttl);
      StepMissesNothing(w, now, mono, e, ttl);
      RunMissesNothing(Step(w, e, ttl), run[1..], e.now, e.mono, ttl);
    }
  }

  lemma NoIsRight(run: seq<Event>, now: int, mono: real, jti: string, later: int, laterMono: real, ttl: real)
    requires run != [] && Ordered(run, now, mono) && NoForeignRevoke(run) && jti != ""
    requires run[|run| - 1].now <= later && run[|run| - 1].mono <= laterMono
    requires var w := Run(START, run, ttl); !Answer(w.rows, w.cache, jti, laterMono, later)
    ensures !Revoked(Run(START, run, ttl), jti, later)
  {
    RunMissesNothing(START, run, now, mono, ttl);
    TableIsExact(run, now, mono, jti, later, ttl);
  }
}
