/** `JWTAuth.verify_token` and `revoke_token` of sovereign/auth.py over the blocklist. JSON, base64 and HMAC
    are parameters. */
module JwtAuth {
  import opened Errors
  import opened Blocklist
  import Text

  datatype Header = Header(alg: Option<string>, typ: Option<string>, kid: Option<string>)

  datatype Payload = Payload(exp: int, iss: Option<string>, aud: Option<string>, jti: string)

  /** The library functions: decoding of the two JSON segments, and the encoded signature of a text under a
      secret. */
  datatype Codec = Codec(
    header: string -> Option<Header>,
    payload: string -> Option<Payload>,
    sign: (string, string) -> string)

  datatype Config = Config(
    secrets: map<string, string>, currentKid: string,
    issuer: string, audience: string,          // empty when not configured
    expectedAlg: string, maxTokenLen: nat, codec: Codec)

  /** The configured key that a token of the right structure, with a header for the expected algorithm, names. */
  function KeyNamed(a: Config, token: string): Option<string> {
    var parts := Text.Split(token, ".");
    if |token| > a.maxTokenLen || |parts| != 3 then None
    else
      match a.codec.header(parts[0])
      case None => None
      case Some(h) =>
        var kid := KidOf(a, h);
        if h.alg != Some(a.expectedAlg) || h.typ != Some("JWT") then None
        else if kid !in a.secrets || a.secrets[kid] == "" then None
        else Some(kid)
  }

  /** Everything `verify_token` checks before the clock: structure, algorithm, key, signature, payload. */
  function Decoded(a: Config, token: string): Option<Payload> {
    match KeyNamed(a, token)
    case None => None
    case Some(kid) =>
      var parts := Text.Split(token, ".");
      if !Text.Ascii(token) || |parts| != 3 || kid !in a.secrets then None
      else if parts[2] != a.codec.sign(a.secrets[kid], parts[0] + "." + parts[1]) then None
      else a.codec.payload(parts[1])
  }

  /** Signing, or comparing signatures, raises on a segment that is not ASCII. */
  predicate Raises(a: Config, token: string) {
    KeyNamed(a, token).Some? && !Text.Ascii(token)
  }

  function Signed(a: Config, kid: string, h: string, b: string): string
    requires kid in a.secrets
  {
    h + "." + b + "." + a.codec.sign(a.secrets[kid], h + "." + b)
  }

  /** The token is the two segments, signed under the configured key that the header segment names, and the
      payload segment reads as `p`. */
  predicate SignedAs(a: Config, token: string, p: Payload, h: string, b: string, kid: string) {
    && '.' !in h && '.' !in b
    && kid in a.secrets && a.secrets[kid] != "" && HeaderNames(a, h, kid)
    && token == Signed(a, kid, h, b)
    && a.codec.payload(b) == Some(p)
  }

  /** What gets past these checks is exactly what has been signed, over both segments, under the configured key
      the header names. */
  lemma DecodedExactly(a: Config, token: string, p: Payload)
    requires SignaturesHaveNoDot(a)
    ensures Decoded(a, token) == Some(p) <==>
            |token| <= a.maxTokenLen && Text.Ascii(token) && exists h, b, kid :: SignedAs(a, token, p, h, b, kid)
  {
    hide Decoded, SignedAs, SignaturesHaveNoDot, Text.Ascii;
    if Decoded(a, token) == Some(p) {
      DecodedIsSigned(a, token, p);
    }
    if |token| <= a.maxTokenLen && Text.Ascii(token) {
      forall h, b, kid | SignedAs(a, token, p, h, b, kid)
        ensures Decoded(a, token) == Some(p)
      {
        SignedIsDecoded(a, token, p, h, b, kid);
      }
    }
  }

  /** Base64url has no dot. */
  ghost predicate SignaturesHaveNoDot(a: Config) {
    forall secret, text :: '.' !in a.codec.sign(secret, text)
  }

  lemma DecodedIsSigned(a: Config, token: string, p: Payload)
    requires Decoded(a, token) == Some(p)
    ensures |token| <= a.maxTokenLen && Text.Ascii(token)
    ensures exists h, b, kid :: SignedAs(a, token, p, h, b, kid)
  {
    var parts := Text.Split(token, ".");
    Text.JoinSplit(token, ".");
    PiecesHaveNoDot(token);
    hide Text.Split, Text.Join;
    JoinThree(parts[0], parts[1], parts[2]);
    assert parts == [parts[0], parts[1], parts[2]];
    assert SignedAs(a, token, p, parts[0], parts[1], KidOf(a, a.codec.header(parts[0]).value));
  }

  lemma SignedIsDecoded(a: Config, token: string, p: Payload, h: string, b: string, kid: string)
    requires SignaturesHaveNoDot(a) && |token| <= a.maxTokenLen && Text.Ascii(token)
    requires SignedAs(a, token, p, h, b, kid)
    ensures Decoded(a, token) == Some(p)
  {
    hide Text.Split, Text.Join;
    var s := a.codec.sign(a.secrets[kid], h + "." + b);
    var pieces := [h, b, s];
    JoinThree(h, b, s);
    assert forall i :: 0 <= i < |pieces| ==> '.' !in pieces[i];
    Text.SplitJoin(pieces, ".");
    assert Text.Split(token, ".") == pieces;
  }

  function KidOf(a: Config, h: Header): string {
    if h.kid.Some? then h.kid.value else a.currentKid
  }

  /** The header segment asks for the expected algorithm and this key. */
  predicate HeaderNames(a: Config, segment: string, kid: string) {
    var h := a.codec.header(segment);
    && h.Some? && h.value.alg == Some(a.expectedAlg) && h.value.typ == Some("JWT")
    && (h.value.kid == Some(kid) || (h.value.kid == None && kid == a.currentKid))
  }

  lemma JoinThree(x: string, y: string, z: string)
    ensures Text.Join([x, y, z], ".") == x + "." + y + "." + z
  {
    assert [x, y, z][1..] == [y, z] && [y, z][1..] == [z];
    assert Text.Join([y, z], ".") == y + "." + z;
  }

  lemma PiecesHaveNoDot(s: string)
    ensures forall i :: 0 <= i < |Text.Split(s, ".")| ==> '.' !in Text.Split(s, ".")[i]
  {
    Text.PiecesHaveNone(s, ".");
    forall i | 0 <= i < |Text.Split(s, ".")|
      ensures '.' !in Text.Split(s, ".")[i]
    {
      DotIsFound(Text.Split(s, ".")[i]);
    }
  }

  lemma DotIsFound(s: string)
    requires Text.Find(s, ".") < 0
    ensures '.' !in s
  {
    forall i | 0 <= i < |s|
      ensures s[i] != '.'
    {
      assert !Text.At(s, ".", i);
      assert s[i..i + 1] == [s[i]];
    }
  }

  /** Everything before the blocklist is asked: that, the expiry, and whom the token is from and for. */
  function Admitted(a: Config, token: string, now: int): Result<Payload> {
    match Decoded(a, token)
    case None => Err(if Raises(a, token) then Crash else Http(401))
    case Some(p) =>
      if p.exp < now then Err(Http(401))
      else if a.issuer != "" && p.iss != Some(a.issuer) then Err(Http(401))
      else if a.audience != "" && p.aud != Some(a.audience) then Err(Http(401))
      else Ok(p)
  }

  /** The clock is read for the expiry (`now`) and again by the blocklist (`mono`, then `now2`). */
  function Verify(a: Config, token: string, rows: Rows, cache: Cache, now: int, mono: real, now2: int): Result<Payload>
  {
    match Admitted(a, token, now)
    case Err(e) => Err(e)
    case Ok(p) => if Answer(rows, cache, p.jti, mono, now2) then Err(Http(401)) else Ok(p)
  }

  /** The blocklist is asked only when everything else is in order. */
  function CacheAfterVerify(a: Config, token: string, rows: Rows, cache: Cache, now: int, mono: real, now2: int,
                            ttl: real): Cache
  {
    match Admitted(a, token, now)
    case Err(_) => cache
    case Ok(p) => CacheAfter(rows, cache, p.jti, mono, now2, ttl)
  }

  // ---- what is accepted --------------------------------------------------------------------

  /** The token is from the configured issuer and for the configured audience. */
  predicate Addressed(a: Config, p: Payload) {
    (a.issuer != "" ==> p.iss == Some(a.issuer)) && (a.audience != "" ==> p.aud == Some(a.audience))
  }

  /** Everything but the blocklist speaks for the token. */
  ghost predicate InOrder(a: Config, token: string, p: Payload, now: int) {
    && |token| <= a.maxTokenLen && Text.Ascii(token) && (exists h, b, kid :: SignedAs(a, token, p, h, b, kid))
    && now <= p.exp && Addressed(a, p)
  }

  /** A token is accepted exactly when it is signed under the key its header names, does not expire before the first
      clock reading, is from the configured issuer and for the configured audience, and has no id, or one that
      neither a fresh cache entry nor, without one, an unexpired row gives as revoked. */
  lemma VerifyExactly(a: Config, token: string, p: Payload, rows: Rows, cache: Cache, now: int, mono: real, now2: int)
    requires SignaturesHaveNoDot(a)
    ensures Verify(a, token, rows, cache, now, mono, now2) == Ok(p) <==>
            && |token| <= a.maxTokenLen && Text.Ascii(token) && (exists h, b, kid :: SignedAs(a, token, p, h, b, kid))
            && now <= p.exp
            && (a.issuer != "" ==> p.iss == Some(a.issuer))
            && (a.audience != "" ==> p.aud == Some(a.audience))
            && (p.jti == "" ||
                if p.jti in cache && mono < cache[p.jti].until then !cache[p.jti].revoked
                else !(p.jti in rows && now2 <= rows[p.jti].exp))
  {
    hide Decoded, SignedAs, SignaturesHaveNoDot, Text.Ascii;
    DecodedExactly(a, token, p);
  }

  /** Every other token is refused with 401, unless it is not ASCII and gets as far as the signature. */
  lemma RefusedExactly(a: Config, token: string, rows: Rows, cache: Cache, now: int, mono: real, now2: int)
    ensures var r := Verify(a, token, rows, cache, now, mono, now2);
            && (r == Err(Crash) <==>
                |token| <= a.maxTokenLen && !Text.Ascii(token) && exists h, b, z, kid :: Names(a, token, h, b, z, kid))
            && (r.Err? ==> r.error == Crash || r.error == Http(401))
  {
    hide Text.Ascii, Text.Split, Text.Join, Names;
    if |token| <= a.maxTokenLen {
      forall h, b, z, kid | Names(a, token, h, b, z, kid)
        ensures KeyNamed(a, token) == Some(kid)
      {
        NamedIsFound(a, token, h, b, z, kid);
      }
    }
    if KeyNamed(a, token).Some? {
      FoundIsNamed(a, token);
    }
  }

  /** Three segments of which the first names a configured key. */
  predicate Names(a: Config, token: string, h: string, b: string, z: string, kid: string) {
    && '.' !in h && '.' !in b && '.' !in z && token == h + "." + b + "." + z
    && kid in a.secrets && a.secrets[kid] != "" && HeaderNames(a, h, kid)
  }

  lemma NamedIsFound(a: Config, token: string, h: string, b: string, z: string, kid: string)
    requires Names(a, token, h, b, z, kid) && |token| <= a.maxTokenLen
    ensures KeyNamed(a, token) == Some(kid)
  {
    hide Text.Split, Text.Join;
    JoinThree(h, b, z);
    Text.SplitJoin([h, b, z], ".");
  }

  lemma FoundIsNamed(a: Config, token: string)
    requires KeyNamed(a, token).Some?
    ensures |token| <= a.maxTokenLen && exists h, b, z, kid :: Names(a, token, h, b, z, kid)
  {
    var parts := Text.Split(token, ".");
    Text.JoinSplit(token, ".");
    PiecesHaveNoDot(token);
    hide Text.Split, Text.Join;
    JoinThree(parts[0], parts[1], parts[2]);
    assert parts == [parts[0], parts[1], parts[2]];
    assert Names(a, token, parts[0], parts[1], parts[2], KeyNamed(a, token).value);
  }

  /** Only for a token in order is the blocklist asked, about that token's id. */
  lemma AskedExactly(a: Config, token: string, p: Payload, rows: Rows, cache: Cache, now: int, mono: real, now2: int,
                     ttl: real)
    requires SignaturesHaveNoDot(a)
    ensures var cache' := CacheAfterVerify(a, token, rows, cache, now, mono, now2, ttl);
            && (InOrder(a, token, p, now) ==> cache' == CacheAfter(rows, cache, p.jti, mono, now2, ttl))
            && ((forall p' :: !InOrder(a, token, p', now)) ==> cache' == cache)
  {
    hide Decoded, SignedAs, SignaturesHaveNoDot, Text.Ascii;
    DecodedExactly(a, token, p);
    var r := Admitted(a, token, now);
    if r.Ok? {
      DecodedExactly(a, token, r.value);
      assert InOrder(a, token, r.value, now);
    }
  }

  class JWTAuth {
    const config: Config
    const blocklist: SQLiteJWTBlocklist

    constructor (config: Config, blocklist: SQLiteJWTBlocklist)
      ensures this.config == config && this.blocklist == blocklist
    {
      this.config, this.blocklist := config, blocklist;
    }

    method VerifyToken(token: string, now: int, mono: real, now2: int) returns (r: Result<Payload>)
      modifies blocklist`cache
      ensures r == Verify(config, token, blocklist.db.rows, old(blocklist.cache), now, mono, now2)
      ensures blocklist.cache ==
              CacheAfterVerify(config, token, blocklist.db.rows, old(blocklist.cache), now, mono, now2,
                               blocklist.cacheTtl)
    {
      var parts := Text.Split(token, ".");
      if |token| > config.maxTokenLen || |parts| != 3 {
        return Err(Http(401));
      }
      var header := config.codec.header(parts[0]);
      if header.None? {
        return Err(Http(401));
      }
      var h := header.value;
      if h.alg != Some(config.expectedAlg) || h.typ != Some("JWT") {
        return Err(Http(401));
      }
      var kid := if h.kid.Some? then h.kid.value else config.currentKid;
      if kid !in config.secrets || config.secrets[kid] == "" {
        return Err(Http(401));
      }
      if !Text.Ascii(token) {
        return Err(Crash);
      }
      if parts[2] != config.codec.sign(config.secrets[kid], parts[0] + "." + parts[1]) {
        return Err(Http(401));
      }
      var payload := config.codec.payload(parts[1]);
      if payload.None? {
        return Err(Http(401));
      }
      var p := payload.value;
      if p.exp < now {
        return Err(Http(401));
      }
      if config.issuer != "" && p.iss != Some(config.issuer) {
        return Err(Http(401));
      }
      if config.audience != "" && p.aud != Some(config.audience) {
        return Err(Http(401));
      }
      if p.jti != "" {
        var revoked := blocklist.IsRevoked(p.jti, mono, now2);
        if revoked {
          return Err(Http(401));
        }
      }
      r := Ok(p);
    }

    /** The token is checked first; `later` and `laterMono` are the clocks when it is then revoked. */
    method RevokeToken(token: string, reason: string, now: int, mono: real, now2: int, later: int, laterMono: real)
      returns (r: Result<()>)
      modifies blocklist`cache, blocklist.db
      ensures var rows, cache := old(blocklist.db.rows), old(blocklist.cache);
              var cache' := CacheAfterVerify(config, token, rows, cache, now, mono, now2, blocklist.cacheTtl);
              match Verify(config, token, rows, cache, now, mono, now2)
              case Err(e) => r == Err(e) && blocklist.db.rows == rows && blocklist.cache == cache'
              case Ok(p) =>
                if p.jti == "" then r == Err(Http(400)) && blocklist.db.rows == rows && blocklist.cache == cache'
                else
                  && r == Ok(())
                  && blocklist.db.rows == rows[p.jti := Row(p.exp, later, reason)]
                  && blocklist.cache == cache'[p.jti := Entry(true, laterMono + blocklist.cacheTtl)]
    {
      var verified := VerifyToken(token, now, mono, now2);
      if verified.Err? {
        return Err(verified.error);
      }
      var p := verified.value;
      if p.jti == "" {
        return Err(Http(400));
      }
      var ok := blocklist.Revoke(p.jti, p.exp, reason, later, laterMono);
      r := Ok(());
    }
  }

  /** Revoking a token that verifies is a lookup of its id followed by a revocation under its own expiry: table and
      cache are those of the two steps the theorems below start from. */
  lemma RevokeTokenIsRun(a: Config, token: string, reason: string, w: World, now: int, mono: real, now2: int,
                         later: int, laterMono: real, ttl: real)
    requires Verify(a, token, w.rows, w.cache, now, mono, now2).Ok?
    requires Verify(a, token, w.rows, w.cache, now, mono, now2).value.jti != ""
    ensures var p := Verify(a, token, w.rows, w.cache, now, mono, now2).value;
            var lookup := Blocklist.Event(Lookup(p.jti), now2, mono);
            var revoke := Blocklist.Event(Op.Revoke(p.jti, p.exp, reason), later, laterMono);
            var w' := Run(w, [lookup, revoke], ttl);
            && w' == Step(Step(w, lookup, ttl), revoke, ttl)
            && w'.rows == w.rows[p.jti := Row(p.exp, later, reason)]
            && w'.cache == CacheAfterVerify(a, token, w.rows, w.cache, now, mono, now2, ttl)
                           [p.jti := Entry(true, laterMono + ttl)]
            && Revoked(w', p.jti, p.exp) && w'.truth[p.jti].exp == p.exp
  {
    hide Decoded;
    var p := Verify(a, token, w.rows, w.cache, now, mono, now2).value;
    var lookup := Blocklist.Event(Lookup(p.jti), now2, mono);
    var revoke := Blocklist.Event(Op.Revoke(p.jti, p.exp, reason), later, laterMono);
    assert [lookup, revoke][1..] == [revoke] && [revoke][1..] == [];
    var w2 := Step(Step(w, lookup, ttl), revoke, ttl);
    assert Run(w2, [], ttl) == w2;
  }

  // ---- a revoked token stays rejected ------------------------------------------------------

  /** The id is listed for at least `exp`, and nothing in the cache says otherwise before `exp` has passed. */
  ghost predicate Guarded(w: World, jti: string, exp: int, now: int) {
    && jti in w.truth && w.truth[jti].exp >= exp
    && RowTrue(w, jti, now)
    && (jti in w.cache && !w.cache[jti].revoked ==> exp < now)
  }

  /** Revocations of this id, by anyone, do not carry an earlier expiry. */
  predicate KeepsExpiry(op: Op, jti: string, exp: int) {
    (op.Revoke? || op.ForeignRevoke?) && op.jti == jti ==> op.exp >= exp
  }

  lemma GuardStep(w: World, e: Event, jti: string, exp: int, now: int, ttl: real)
    requires Guarded(w, jti, exp, now) && now <= e.now && KeepsExpiry(e.op, jti, exp)
    ensures Guarded(Step(w, e, ttl), jti, exp, e.now)
  {
    RowStep(w, jti, now, e, ttl);
    assert Live(w.rows, jti, e.now) <==> Revoked(w, jti, e.now);
  }

  lemma {:induction false} GuardRun(w: World, run: seq<Event>, jti: string, exp: int, now: int, mono: real, ttl: real)
    requires Guarded(w, jti, exp, now) && Ordered(run, now, mono)
    requires forall i :: 0 <= i < |run| ==> KeepsExpiry(run[i].op, jti, exp)
    ensures Guarded(Run(w, run, ttl), jti, exp, if run == [] then now else run[|run| - 1].now)
    decreases run
  {
    hide Guarded, Step;
    if run == [] {
    } else {
      GuardStep(w, run[0], jti, exp, now, ttl);
      GuardRun(Step(w, run[0], ttl), run[1..], jti, exp, run[0].now, run[0].mono, ttl);
    }
  }

  lemma {:induction false} GuardAfterRevoke(w: World, at: Event, run: seq<Event>, jti: string, exp: int, ttl: real)
    requires at.op.Revoke? && at.op.jti == jti != "" && at.op.exp == exp
    requires Ordered([at] + run, at.now, at.mono)
    requires forall i :: 0 <= i < |run| ==> KeepsExpiry(run[i].op, jti, exp)
    ensures Guarded(Run(Step(w, at, ttl), run, ttl), jti, exp, if run == [] then at.now else run[|run| - 1].now)
  {
    hide Run;
    assert ([at] + run)[1..] == run;
    GuardRun(Step(w, at, ttl), run, jti, exp, at.now, at.mono, ttl);
  }

  /** After a token has been revoked, in any state of table and cache, it is rejected ever after, through any
      revocations, lookups and cleanups of this and other instances, as long as no revocation of the same id
      carries an earlier expiry and the two clock readings of the check do not straddle the token's expiry. */
  lemma {:induction false} RevokedStaysRejected(a: Config, token: string, p: Payload, w: World, at: Event,
                                                run: seq<Event>, now: int, mono: real, now2: int, ttl: real)
    requires Decoded(a, token) == Some(p) && p.jti != ""
    requires at.op.Revoke? && at.op.jti == p.jti && at.op.exp == p.exp
    requires Ordered([at] + run, at.now, at.mono)
    requires forall i :: 0 <= i < |run| ==> KeepsExpiry(run[i].op, p.jti, p.exp)
    requires (if run == [] then at.now else run[|run| - 1].now) <= now <= now2
    requires !(now <= p.exp < now2)
    ensures var w' := Run(Step(w, at, ttl), run, ttl); Verify(a, token, w'.rows, w'.cache, now, mono, now2).Err?
  {
    hide Decoded, Answer, Run, Guarded, Ordered, Step;
    GuardAfterRevoke(w, at, run, p.jti, p.exp, ttl);
    var last := if run == [] then at.now else run[|run| - 1].now;
    GuardRejects(a, token, p, Run(Step(w, at, ttl), run, ttl), last, now, mono, now2);
  }

  lemma GuardRejects(a: Config, token: string, p: Payload, w: World, last: int, now: int, mono: real, now2: int)
    requires Decoded(a, token) == Some(p) && p.jti != ""
    requires Guarded(w, p.jti, p.exp, last) && last <= now <= now2 && !(now <= p.exp < now2)
    ensures Verify(a, token, w.rows, w.cache, now, mono, now2).Err?
  {
    hide Decoded;
  }

  /** The check lets a revoked token through in exactly one case: it is in order, the second clock reading has
      passed the revocation's expiry although the first has not passed the token's, and the cache is stale. */
  ghost predicate SlipsThrough(a: Config, p: Payload, w: World, now: int, mono: real, now2: int) {
    Addressed(a, p) && now <= p.exp && !Fresh(w.cache, p.jti, mono) && p.jti in w.truth && w.truth[p.jti].exp < now2
  }

  lemma GuardExactly(a: Config, token: string, p: Payload, w: World, last: int, now: int, mono: real, now2: int)
    requires Decoded(a, token) == Some(p) && p.jti != ""
    requires Guarded(w, p.jti, p.exp, last) && last <= now <= now2
    ensures Verify(a, token, w.rows, w.cache, now, mono, now2).Ok? <==> SlipsThrough(a, p, w, now, mono, now2)
  {
    hide Decoded;
  }

  /** After a token has been revoked, and any run that does not lower its id's expiry, that is exact. */
  lemma {:induction false} AcceptedAfterRevokeExactly(a: Config, token: string, p: Payload, w: World, at: Event,
                                                      run: seq<Event>, now: int, mono: real, now2: int, ttl: real)
    requires Decoded(a, token) == Some(p) && p.jti != ""
    requires at.op.Revoke? && at.op.jti == p.jti && at.op.exp == p.exp
    requires Ordered([at] + run, at.now, at.mono)
    requires forall i :: 0 <= i < |run| ==> KeepsExpiry(run[i].op, p.jti, p.exp)
    requires (if run == [] then at.now else run[|run| - 1].now) <= now <= now2
    ensures var w' := Run(Step(w, at, ttl), run, ttl);
            Verify(a, token, w'.rows, w'.cache, now, mono, now2).Ok? <==> SlipsThrough(a, p, w', now, mono, now2)
  {
    hide Decoded, Answer, Run, Verify, SlipsThrough, Guarded, Ordered, Step;
    GuardAfterRevoke(w, at, run, p.jti, p.exp, ttl);
    var last := if run == [] then at.now else run[|run| - 1].now;
    GuardExactly(a, token, p, Run(Step(w, at, ttl), run, ttl), last, now, mono, now2);
  }

  /** Rejected by every later check with one clock reading, whatever revocations (none of this id with an earlier
      expiry than the token's), lookups and cleanups of this and other instances happen in between. */
  ghost predicate RejectedAlways(a: Config, token: string, p: Payload, w: World, now: int, mono: real, ttl: real) {
    forall run, t, m :: LaterRun(run, p, now, mono, t, m) ==>
      Verify(a, token, Run(w, run, ttl).rows, Run(w, run, ttl).cache, t, m, t).Err?
  }

  ghost predicate LaterRun(run: seq<Event>, p: Payload, now: int, mono: real, t: int, m: real) {
    && Ordered(run, now, mono)
    && (forall i :: 0 <= i < |run| ==> KeepsExpiry(run[i].op, p.jti, p.exp))
    && if run == [] then now <= t && mono <= m else run[|run| - 1].now <= t && run[|run| - 1].mono <= m
  }

  /** In every state that one instance has reached, this is exact. An id that has been revoked is rejected ever
      after if and only if its latest revocation carries at least the token's expiry (or the token has already
      expired): revoking another token of the same id with an earlier expiry brings this one back. */
  lemma RejectedForeverExactly(a: Config, token: string, p: Payload, w: World, now: int, mono: real, ttl: real)
    requires Inv(w, now, mono, ttl) && NoMiss(w, now)
    requires Decoded(a, token) == Some(p) && Addressed(a, p) && p.jti != "" && p.jti in w.truth
    ensures RejectedAlways(a, token, p, w, now, mono, ttl) <==> w.truth[p.jti].exp >= p.exp || p.exp < now
  {
    hide Decoded, Verify;
    if w.truth[p.jti].exp >= p.exp || p.exp < now {
      forall run, t, m | LaterRun(run, p, now, mono, t, m)
        ensures Verify(a, token, Run(w, run, ttl).rows, Run(w, run, ttl).cache, t, m, t).Err?
      {
        RejectedLater(a, token, p, w, run, now, mono, t, m, ttl);
      }
    } else {
      var m := if ttl > 0.0 then mono + ttl else mono;
      ComesBack(a, token, p, w, now, mono, m, ttl);
      assert LaterRun([], p, now, mono, p.exp, m);
      assert Run(w, [], ttl) == w;
    }
  }

  lemma RejectedLater(a: Config, token: string, p: Payload, w: World, run: seq<Event>, now: int, mono: real,
                      t: int, m: real, ttl: real)
    requires Inv(w, now, mono, ttl) && NoMiss(w, now)
    requires Decoded(a, token) == Some(p) && p.jti != "" && p.jti in w.truth
    requires w.truth[p.jti].exp >= p.exp || p.exp < now
    requires LaterRun(run, p, now, mono, t, m)
    ensures Verify(a, token, Run(w, run, ttl).rows, Run(w, run, ttl).cache, t, m, t).Err?
  {
    hide Decoded, Run, KeepsExpiry;
    LastNotBefore(run, now, mono);
    if p.exp >= now {
      assert RowTrue(w, p.jti, now);
      GuardRun(w, run, p.jti, p.exp, now, mono, ttl);
      var last := if run == [] then now else run[|run| - 1].now;
      GuardRejects(a, token, p, Run(w, run, ttl), last, t, m, t);
    }
  }

  lemma {:induction false} LastNotBefore(run: seq<Event>, now: int, mono: real)
    requires run != [] ==> Ordered(run, now, mono)
    ensures run != [] ==> now <= run[|run| - 1].now
  {
    if |run| <= 1 {
    } else {
      LastNotBefore(run[1..], run[0].now, run[0].mono);
    }
  }

  /** Once the cache no longer speaks for the id, the token is accepted at its last moment. */
  lemma ComesBack(a: Config, token: string, p: Payload, w: World, now: int, mono: real, m: real, ttl: real)
    requires Inv(w, now, mono, ttl) && NoMiss(w, now)
    requires Decoded(a, token) == Some(p) && Addressed(a, p) && p.jti != "" && p.jti in w.truth
    requires w.truth[p.jti].exp < p.exp && now <= p.exp && mono <= m && mono + ttl <= m
    ensures Verify(a, token, w.rows, w.cache, p.exp, m, p.exp) == Ok(p)
  {
    hide Decoded;
    assert RowTrue(w, p.jti, now) && EntryTrue(w, p.jti, now, mono, ttl);
  }

  /** The clock readings matter: when the expiry passes between them and the cache is stale, the check lets a
      revoked token through. */
  lemma AcceptedAcrossExpiry(a: Config, token: string, p: Payload, w: World, now: int, mono: real, later: real,
                             ttl: real)
    requires Inv(w, now, mono, ttl) && now <= p.exp && mono <= later && mono + ttl <= later
    requires Decoded(a, token) == Some(p) && Addressed(a, p) && Revoked(w, p.jti, p.exp) && w.truth[p.jti].exp == p.exp
    ensures Verify(a, token, w.rows, w.cache, p.exp, later, p.exp + 1) == Ok(p)
  {
    assert RowTrue(w, p.jti, now) && EntryTrue(w, p.jti, now, mono, ttl);
  }
}
