/** `parse_header_block` of sovereign/parser.py: request line and fields (sections 3 and 5 of RFC 9112),
    with repeated fields combined as section 5.3 of RFC 9110 says. */
module HeaderBlock {
  import opened Errors
  import opened Text

  const BLANK: bytes := "\r\n\r\n"

  datatype Head = Head(
    verb: bytes, target: bytes, version: bytes,
    headers: map<bytes, bytes>,
    rawPairs: seq<(bytes, bytes)>)

  predicate TokenChar(c: char) {
    || '0' <= c <= '9' || 'A' <= c <= 'Z' || '^' <= c <= 'z'      // ^ _ ` and the lower-case letters
    || c == '!' || '#' <= c <= '\'' || c == '*' || c == '+' || c == '-' || c == '.' || c == '|' || c == '~'
  }

  /** The token characters of section 5.6.2 of RFC 9110. */
  lemma TokenCharsExactly(c: char)
    ensures TokenChar(c) <==> '0' <= c <= '9' || 'a' <= c <= 'z' || 'A' <= c <= 'Z' || c in "!#$%&'*+-.^_`|~"
  {
  }

  predicate Token(s: bytes) {
    s != [] && forall i :: 0 <= i < |s| ==> TokenChar(s[i])
  }

  /** The `_TOKEN` pattern: its `$` also matches before a final line feed. */
  predicate TokenMatch(s: bytes) {
    Token(s) || (s != [] && s[|s| - 1] == '\n' && Token(s[..|s| - 1]))
  }

  /** The fields that decide how long the message is; a second one is refused. */
  predicate Framing(name: bytes) {
    name == "host" || name == "content-length" || name == "transfer-encoding"
  }

  // ---- one field line ----------------------------------------------------------------------

  function Field(line: bytes): (bytes, bytes) {
    var k := Find(line, ":");
    if k < 0 then ([], []) else (Lower(Trim(line[..k])), Trim(line[k + 1..]))
  }

  function LineStatus(line: bytes, config: ServerConfig): int {
    if line == [] then 0
    else if line[0] in " \t" then 400
    else if Find(line, ":") < 0 then 400
    else
      var (name, value) := Field(line);
      if name == [] || !TokenMatch(name) then 400
      else if |name| > config.maxHeaderName || |value| > config.maxHeaderValue then 431
      else 0
  }

  datatype Fields = Fields(headers: map<bytes, bytes>, pairs: seq<(bytes, bytes)>)

  function Merge(headers: map<bytes, bytes>, name: bytes, value: bytes): map<bytes, bytes> {
    headers[name := if name in headers then headers[name] + ", " + value else value]
  }

  function AddLine(f: Fields, line: bytes, config: ServerConfig): Result<Fields> {
    if LineStatus(line, config) != 0 then Err(Http(LineStatus(line, config)))
    else if line == [] then Ok(f)
    else
      var (name, value) := Field(line);
      if name in f.headers && Framing(name) then Err(Http(400))
      else
        Ok(Fields(Merge(f.headers, name, value), f.pairs + [(name, value)]))
  }

  function AddLines(f: Fields, lines: seq<bytes>, config: ServerConfig): Result<Fields>
    decreases |lines|
  {
    if lines == [] then Ok(f)
    else match AddLine(f, lines[0], config)
         case Err(e) => Err(e)
         case Ok(g) => AddLines(g, lines[1..], config)
  }

  // ---- the whole block ---------------------------------------------------------------------

  function RequestLineStatus(line: bytes, config: ServerConfig): int {
    if line == [] then 400
    else if |line| > config.maxRequestLine then 414
    else
      var parts := Split(line, " ");
      if |parts| != 3 then 400
      else if !TokenMatch(parts[0]) then 400
      else if parts[2] != "HTTP/1.1" then 505
      else if !StartsWith(parts[1], "/") then 400
      else 0
  }

  function Lines(raw: bytes): (r: seq<bytes>)
    ensures |r| > 0
  {
    Split(if |raw| >= 4 then raw[..|raw| - 4] else [], CRLF)
  }

  function ParseHead(raw: bytes, config: ServerConfig): Result<Head> {
    if Find(raw, BLANK) < 0 then Err(Http(400))
    else
      var lines := Lines(raw);
      if RequestLineStatus(lines[0], config) != 0 then Err(Http(RequestLineStatus(lines[0], config)))
      else if |lines| - 1 > config.maxHeaders then Err(Http(431))
      else match AddLines(Fields(map[], []), lines[1..], config)
           case Err(e) => Err(e)
           case Ok(f) =>
             if "host" !in f.headers then Err(Http(400))
             else if "content-length" in f.headers && "transfer-encoding" in f.headers then Err(Http(400))
             else
               var parts := Split(lines[0], " ");
               Ok(Head(Upper(parts[0]), parts[1], parts[2], f.headers, f.pairs))
  }

  method ParseHeaderBlock(raw: bytes, config: ServerConfig) returns (r: Result<Head>)
    ensures r == ParseHead(raw, config)
  {
    hide LineStatus, RequestLineStatus, Lines, Field;
    if Find(raw, BLANK) < 0 {
      return Err(Http(400));
    }
    var lines := Lines(raw);
    var status := RequestLineStatus(lines[0], config);
    if status != 0 {
      return Err(Http(status));
    }
    assert |Split(lines[0], " ")| == 3 by { ThreeParts(lines[0], config); }
    var parts := Split(lines[0], " ");
    if |lines| - 1 > config.maxHeaders {
      return Err(Http(431));
    }
    var headers: map<bytes, bytes> := map[];
    var rawPairs: seq<(bytes, bytes)> := [];
    for i := 1 to |lines|
      invariant AddLines(Fields(headers, rawPairs), lines[i..], config)
             == AddLines(Fields(map[], []), lines[1..], config)
    {
      var line := lines[i];
      assert lines[i..][0] == line && lines[i..][1..] == lines[i + 1..];
      var bad := LineStatus(line, config);
      if bad != 0 {
        return Err(Http(bad));
      }
      if line == [] {
        continue;
      }
      var (name, value) := Field(line);
      if name in headers && Framing(name) {
        return Err(Http(400));
      }
      headers := headers[name := if name in headers then headers[name] + ", " + value else value];
      rawPairs := rawPairs + [(name, value)];
    }
    if "host" !in headers {
      return Err(Http(400));
    }
    if "content-length" in headers && "transfer-encoding" in headers {
      return Err(Http(400));
    }
    r := Ok(Head(Upper(parts[0]), parts[1], parts[2], headers, rawPairs));
  }

  lemma ThreeParts(line: bytes, config: ServerConfig)
    requires RequestLineStatus(line, config) == 0
    ensures |Split(line, " ")| == 3
  {
  }

  // ---- what is accepted, and as what -------------------------------------------------------

  /** The values given for one name, in order. */
  function Values(pairs: seq<(bytes, bytes)>, name: bytes): seq<bytes> {
    if pairs == [] then []
    else
      var last := pairs[|pairs| - 1];
      Values(pairs[..|pairs| - 1], name) + (if last.0 == name then [last.1] else [])
  }

  /** The combined fields: each name with all its values, in order, separated by ", ". */
  ghost predicate Combined(headers: map<bytes, bytes>, pairs: seq<(bytes, bytes)>) {
    forall n: bytes ::
      (n in headers <==> Values(pairs, n) != []) &&
      (n in headers ==> Values(pairs, n) != [] && headers[n] == Join(Values(pairs, n), ", "))
  }

  ghost predicate FramingOnce(pairs: seq<(bytes, bytes)>) {
    forall n: bytes :: Framing(n) ==> |Values(pairs, n)| <= 1
  }

  /** The fields of the nonempty lines, in order. */
  function Pairs(lines: seq<bytes>): seq<(bytes, bytes)> {
    if lines == [] then []
    else (if lines[0] == [] then [] else [Field(lines[0])]) + Pairs(lines[1..])
  }

  /** An empty line, or a field line: not folded, and up to its first colon a name, behind it a value, within the
      limits once whitespace around them is left out. */
  ghost predicate LegalLine(line: bytes, config: ServerConfig) {
    line == [] ||
    (line[0] != ' ' && line[0] != '\t' &&
     exists k :: Colon(line, k) && TokenMatch(Lower(Trim(line[..k]))) &&
       |Trim(line[..k])| <= config.maxHeaderName && |Trim(line[k + 1..])| <= config.maxHeaderValue)
  }

  /** The first colon is here. */
  predicate Colon(line: bytes, k: int) {
    0 <= k < |line| && line[k] == ':' && ':' !in line[..k]
  }

  lemma ColonFound(line: bytes, k: int)
    ensures Colon(line, k) <==> k >= 0 && k == Find(line, ":")
  {
    if Colon(line, k) {
      assert line[k..k + 1] == ":";
      forall j | 0 <= j < k
        ensures !At(line, ":", j)
      {
        AtChar(line, ":", j, 0);
        assert line[..k][j] == line[j];
      }
      FindIs(line, ":", k);
    }
    if k >= 0 && k == Find(line, ":") {
      AtChar(line, ":", k, 0);
      forall j | 0 <= j < k
        ensures line[j] != ':'
      {
        assert line[j..j + 1] == [line[j]] && !At(line, ":", j);
      }
    }
  }

  lemma LegalExactly(line: bytes, config: ServerConfig)
    ensures LineStatus(line, config) == 0 <==> LegalLine(line, config)
  {
    hide Trim, Find, Colon;
    if line != [] {
      var k := Find(line, ":");
      assert line[0] in " \t" <==> line[0] == ' ' || line[0] == '\t';
      assert !TokenMatch([]);
      ColonFound(line, k);
      forall j | Colon(line, j)
        ensures j == k
      {
        ColonFound(line, j);
      }
    }
  }

  ghost predicate AllFieldLines(lines: seq<bytes>, config: ServerConfig) {
    forall i :: 0 <= i < |lines| ==> LegalLine(lines[i], config)
  }

  /** Three parts with single spaces between them: a method, a target in origin form, the version. */
  ghost predicate LegalRequestLine(line: bytes, config: ServerConfig) {
    && |line| <= config.maxRequestLine
    && exists verb, target :: LineOf(line, verb, target, "HTTP/1.1") && TokenMatch(verb) && StartsWith(target, "/")
  }

  predicate LineOf(line: bytes, verb: bytes, target: bytes, version: bytes) {
    ' ' !in verb && ' ' !in target && ' ' !in version && line == verb + " " + target + " " + version
  }

  lemma PartsExactly(line: bytes, verb: bytes, target: bytes, version: bytes)
    ensures LineOf(line, verb, target, version) <==> Split(line, " ") == [verb, target, version]
  {
    JoinThree(verb, target, version);
    if Split(line, " ") == [verb, target, version] {
      JoinSplit(line, " ");
      PiecesHaveNone(line, " ");
      NoSpace(verb);
      NoSpace(target);
      NoSpace(version);
      assert verb == Split(line, " ")[0] && target == Split(line, " ")[1] && version == Split(line, " ")[2];
    }
    if LineOf(line, verb, target, version) {
      SplitJoin([verb, target, version], " ");
    }
  }

  lemma NoSpace(s: bytes)
    ensures Find(s, " ") < 0 ==> ' ' !in s
  {
    forall i | 0 <= i < |s| && s[i] == ' '
      ensures At(s, " ", i)
    {
      assert s[i..i + 1] == " ";
    }
  }

  lemma RequestLineExactly(line: bytes, config: ServerConfig)
    ensures RequestLineStatus(line, config) == 0 <==> LegalRequestLine(line, config)
  {
    hide Split, TokenMatch, StartsWith, LineOf;
    var parts := Split(line, " ");
    if |parts| == 3 {
      assert parts == [parts[0], parts[1], parts[2]];
      PartsExactly(line, parts[0], parts[1], parts[2]);
    }
    forall verb, target | LineOf(line, verb, target, "HTTP/1.1")
      ensures parts == [verb, target, "HTTP/1.1"] && line != []
    {
      PartsExactly(line, verb, target, "HTTP/1.1");
      LineNotEmpty(line, verb, target);
    }
  }

  lemma LineNotEmpty(line: bytes, verb: bytes, target: bytes)
    requires LineOf(line, verb, target, "HTTP/1.1")
    ensures line != []
  {
  }

  /** A header block the server accepts, said without reference to the parser. */
  ghost predicate Acceptable(raw: bytes, config: ServerConfig) {
    var lines := Lines(raw);
    var pairs := Pairs(lines[1..]);
    && Find(raw, BLANK) >= 0
    && LegalRequestLine(lines[0], config)
    && |lines| - 1 <= config.maxHeaders
    && AllFieldLines(lines[1..], config)
    && |Values(pairs, "host")| == 1
    && |Values(pairs, "content-length")| + |Values(pairs, "transfer-encoding")| <= 1
  }

  lemma {:induction false} JoinSnoc(vs: seq<bytes>, v: bytes, sep: bytes)
    requires vs != []
    ensures Join(vs + [v], sep) == Join(vs, sep) + sep + v
  {
    if |vs| == 1 {
    } else {
      assert (vs + [v])[1..] == vs[1..] + [v];
      JoinSnoc(vs[1..], v, sep);
    }
  }

  lemma ValuesSnoc(pairs: seq<(bytes, bytes)>, p: (bytes, bytes), n: bytes)
    ensures Values(pairs + [p], n) == Values(pairs, n) + (if p.0 == n then [p.1] else [])
  {
    assert (pairs + [p])[..|pairs|] == pairs;
  }

  lemma {:induction false} ValuesPrefix(pairs: seq<(bytes, bytes)>, more: seq<(bytes, bytes)>, n: bytes)
    ensures |Values(pairs, n)| <= |Values(pairs + more, n)|
  {
    if more == [] {
      assert pairs + more == pairs;
    } else {
      ValuesPrefix(pairs, more[..|more| - 1], n);
      ValuesSnoc(pairs + more[..|more| - 1], more[|more| - 1], n);
      assert pairs + more == pairs + more[..|more| - 1] + [more[|more| - 1]];
    }
  }

  lemma MergeCombines(headers: map<bytes, bytes>, pairs: seq<(bytes, bytes)>, name: bytes, value: bytes)
    requires Combined(headers, pairs)
    ensures Combined(Merge(headers, name, value), pairs + [(name, value)])
  {
    hide Values, Join;
    var more := pairs + [(name, value)];
    var merged := Merge(headers, name, value);
    forall n: bytes
      ensures (n in merged <==> Values(more, n) != []) &&
              (n in merged ==> Values(more, n) != [] && merged[n] == Join(Values(more, n), ", "))
    {
      ValuesSnoc(pairs, (name, value), n);
      if n == name && n in headers {
        JoinSnoc(Values(pairs, n), value, ", ");
      } else if n == name {
        assert Values(more, n) == [value];
        JoinOne(value, ", ");
      } else {
        assert Values(more, n) == Values(pairs, n);
      }
    }
  }

  lemma JoinOne(v: bytes, sep: bytes)
    ensures Join([v], sep) == v
  {
  }

  lemma FramingStep(headers: map<bytes, bytes>, pairs: seq<(bytes, bytes)>, name: bytes, value: bytes)
    requires Combined(headers, pairs) && FramingOnce(pairs)
    ensures FramingOnce(pairs + [(name, value)]) <==> !(name in headers && Framing(name))
  {
    hide Values, Join, Framing;
    forall n: bytes
      ensures |Values(pairs + [(name, value)], n)| == |Values(pairs, n)| + (if n == name then 1 else 0)
    {
      ValuesSnoc(pairs, (name, value), n);
    }
    assert name in headers <==> |Values(pairs, name)| > 0;
  }

  /** Adding one field keeps the map combined, and is refused exactly for a second framing field. */
  lemma AddField(f: Fields, line: bytes, config: ServerConfig)
    requires Combined(f.headers, f.pairs) && FramingOnce(f.pairs)
    requires line != [] && LineStatus(line, config) == 0
    ensures var pairs := f.pairs + [Field(line)];
            var r := AddLine(f, line, config);
            && (r.Ok? <==> FramingOnce(pairs))
            && (r.Ok? ==> r.value.pairs == pairs && Combined(r.value.headers, pairs))
  {
    hide Combined, FramingOnce, LineStatus, Field, Framing;
    var (name, value) := Field(line);
    FramingStep(f.headers, f.pairs, name, value);
    MergeCombines(f.headers, f.pairs, name, value);
  }

  lemma {:induction false} AddLinesExact(f: Fields, lines: seq<bytes>, config: ServerConfig)
    requires Combined(f.headers, f.pairs) && FramingOnce(f.pairs)
    ensures var pairs := f.pairs + Pairs(lines);
            var r := AddLines(f, lines, config);
            && (r.Ok? <==> AllFieldLines(lines, config) && FramingOnce(pairs))
            && (r.Ok? ==> r.value.pairs == pairs && Combined(r.value.headers, pairs))
    decreases |lines|
  {
    hide Combined, LineStatus, LegalLine, Field, FramingOnce, Merge;
    if lines == [] {
      assert f.pairs + Pairs(lines) == f.pairs;
    } else {
      var line, rest := lines[0], lines[1..];
      LegalExactly(line, config);
      assert AllFieldLines(lines, config) <==> LegalLine(line, config) && AllFieldLines(rest, config);
      if LineStatus(line, config) == 0 {
        if line == [] {
          assert Pairs(lines) == Pairs(rest);
          AddLinesExact(f, rest, config);
        } else {
          var pairs := f.pairs + [Field(line)];
          assert f.pairs + Pairs(lines) == pairs + Pairs(rest);
          AddField(f, line, config);
          if FramingOnce(pairs) {
            AddLinesExact(AddLine(f, line, config).value, rest, config);
          } else {
            FramingGrows(pairs, Pairs(rest));
          }
        }
      }
    }
  }

  lemma FramingGrows(pairs: seq<(bytes, bytes)>, more: seq<(bytes, bytes)>)
    requires !FramingOnce(pairs)
    ensures !FramingOnce(pairs + more)
  {
    var n: bytes :| Framing(n) && |Values(pairs, n)| > 1;
    ValuesPrefix(pairs, more, n);
  }

  lemma FramingNames(pairs: seq<(bytes, bytes)>)
    ensures FramingOnce(pairs) <==>
            && |Values(pairs, "host")| <= 1 && |Values(pairs, "content-length")| <= 1
            && |Values(pairs, "transfer-encoding")| <= 1
  {
    hide Values;
    assert Framing("host") && Framing("content-length") && Framing("transfer-encoding");
  }

  /** What an accepted block is turned into: the request line's parts, the fields in order, and a map in
      which every name holds the ", "-joined values of its fields. */
  ghost predicate HeadOf(raw: bytes, h: Head) {
    var lines := Lines(raw);
    var parts := Split(lines[0], " ");
    && |parts| == 3
    && h.verb == Upper(parts[0]) && h.target == parts[1] && h.version == parts[2] == "HTTP/1.1"
    && h.rawPairs == Pairs(lines[1..])
    && Combined(h.headers, h.rawPairs)
    && "host" in h.headers
    && !("content-length" in h.headers && "transfer-encoding" in h.headers)
  }

  /** The parser accepts exactly the acceptable blocks, and turns them into their heads. */
  lemma HeadExact(raw: bytes, config: ServerConfig)
    ensures ParseHead(raw, config).Ok? <==> Acceptable(raw, config)
    ensures ParseHead(raw, config).Ok? ==> HeadOf(raw, ParseHead(raw, config).value)
  {
    hide LineStatus, Field, AddLine, AddLines, Values, Pairs, Lines, LegalLine, LegalRequestLine;
    var lines := Lines(raw);
    RequestLineExactly(lines[0], config);
    var pairs := Pairs(lines[1..]);
    AddLinesExact(Fields(map[], []), lines[1..], config) by { NothingYet(); }
    assert [] + pairs == pairs;
    FramingNames(pairs);
  }

  lemma NothingYet()
    ensures Combined(map[], []) && FramingOnce([])
  {
  }

  // ---- rendering ---------------------------------------------------------------------------

  /** A field that can be put on a line of its own. */
  predicate PlainField(p: (bytes, bytes), config: ServerConfig) {
    && Token(p.0) && |p.0| <= config.maxHeaderName
    && '\r' !in p.1 && Trimmed(p.1) && |p.1| <= config.maxHeaderValue
  }

  function FieldText(p: (bytes, bytes)): bytes {
    p.0 + ": " + p.1
  }

  function FieldTexts(fields: seq<(bytes, bytes)>): (r: seq<bytes>)
    ensures |r| == |fields| && forall i :: 0 <= i < |r| ==> r[i] == FieldText(fields[i])
  {
    seq(|fields|, i requires 0 <= i < |fields| => FieldText(fields[i]))
  }

  function LowerNames(fields: seq<(bytes, bytes)>): seq<(bytes, bytes)> {
    if fields == [] then [] else [(Lower(fields[0].0), fields[0].1)] + LowerNames(fields[1..])
  }

  function RequestLine(verb: bytes, target: bytes): bytes {
    verb + " " + target + " " + "HTTP/1.1"
  }

  function RenderLines(verb: bytes, target: bytes, fields: seq<(bytes, bytes)>): (r: seq<bytes>)
    ensures |r| == |fields| + 1
  {
    [RequestLine(verb, target)] + FieldTexts(fields)
  }

  function Render(verb: bytes, target: bytes, fields: seq<(bytes, bytes)>): bytes {
    Join(RenderLines(verb, target, fields), CRLF) + BLANK
  }

  /** A request head within the limits, its method anything the token pattern matches. */
  predicate PlainHead(verb: bytes, target: bytes, fields: seq<(bytes, bytes)>, config: ServerConfig) {
    var pairs := LowerNames(fields);
    && TokenMatch(verb)
    && StartsWith(target, "/") && ' ' !in target && '\r' !in target
    && |RequestLine(verb, target)| <= config.maxRequestLine
    && |fields| <= config.maxHeaders
    && (forall i :: 0 <= i < |fields| ==> PlainField(fields[i], config))
    && |Values(pairs, "host")| == 1
    && |Values(pairs, "content-length")| + |Values(pairs, "transfer-encoding")| <= 1
  }

  lemma TokenHasNo(s: bytes, c: char)
    requires Token(s) && !TokenChar(c)
    ensures c !in s
  {
  }

  lemma MatchHasNo(s: bytes, c: char)
    requires TokenMatch(s) && !TokenChar(c) && c != '\n'
    ensures c !in s
  {
    if !Token(s) {
      TokenHasNo(s[..|s| - 1], c);
      assert s == s[..|s| - 1] + [s[|s| - 1]];
    }
  }

  lemma LowerToken(c: char)
    requires TokenChar(c)
    ensures TokenChar(LowerChar(c))
  {
  }

  lemma TokenTrims(s: bytes)
    requires Token(s)
    ensures Trim(s) == s && Token(Lower(s))
  {
    assert TokenChar(s[0]) && TokenChar(s[|s| - 1]);
    forall i | 0 <= i < |s|
      ensures TokenChar(Lower(s)[i])
    {
      LowerToken(s[i]);
    }
  }

  lemma FieldTextParses(p: (bytes, bytes), config: ServerConfig)
    requires PlainField(p, config)
    ensures FieldText(p) != [] && '\r' !in FieldText(p)
    ensures Field(FieldText(p)) == (Lower(p.0), p.1)
    ensures LineStatus(FieldText(p), config) == 0
  {
    var line := FieldText(p);
    TokenHasNo(p.0, ':');
    TokenHasNo(p.0, '\r');
    ClearWithoutHead(p.0, ":");
    FindAfterClear(p.0, ":", " " + p.1);
    assert line == p.0 + ":" + (" " + p.1);
    assert line[..|p.0|] == p.0 && line[|p.0| + 1..] == " " + p.1;
    TokenTrims(p.0);
    TrimSpaced(p.1);
    assert line[0] == p.0[0] && TokenChar(p.0[0]);
    hide Find, Trim, Lower, TokenChar, Clear, TokenMatch;
  }

  lemma {:induction false} FieldTextsParse(fields: seq<(bytes, bytes)>, config: ServerConfig)
    requires forall i :: 0 <= i < |fields| ==> PlainField(fields[i], config)
    ensures Pairs(FieldTexts(fields)) == LowerNames(fields)
    ensures AllFieldLines(FieldTexts(fields), config)
    ensures forall i :: 0 <= i < |fields| ==> FieldTexts(fields)[i] != [] && '\r' !in FieldTexts(fields)[i]
  {
    hide FieldText, Field, LineStatus, LegalLine, PlainField;
    if fields == [] {
    } else {
      var texts := FieldTexts(fields);
      FieldTextParses(fields[0], config);
      LegalExactly(texts[0], config);
      FieldTextsParse(fields[1..], config);
      assert texts[1..] == FieldTexts(fields[1..]);
      assert forall i :: 1 <= i < |texts| ==> texts[i] == texts[1..][i - 1];
    }
  }

  lemma JoinThree(a: bytes, b: bytes, c: bytes)
    ensures Join([a, b, c], " ") == a + " " + b + " " + c
  {
    assert [a, b, c][1..] == [b, c] && [b, c][1..] == [c];
    assert Join([b, c], " ") == b + " " + c;
    assert a + " " + (b + " " + c) == a + " " + b + " " + c;
  }

  lemma RequestLineParses(verb: bytes, target: bytes, config: ServerConfig)
    requires TokenMatch(verb)
    requires StartsWith(target, "/") && ' ' !in target && '\r' !in target
    requires |RequestLine(verb, target)| <= config.maxRequestLine
    ensures Split(RequestLine(verb, target), " ") == [verb, target, "HTTP/1.1"]
    ensures RequestLineStatus(RequestLine(verb, target), config) == 0
    ensures RequestLine(verb, target) != [] && '\r' !in RequestLine(verb, target)
  {
    hide Split, Join;
    MatchHasNo(verb, ' ');
    MatchHasNo(verb, '\r');
    var parts := [verb, target, "HTTP/1.1"];
    JoinThree(verb, target, "HTTP/1.1");
    SplitJoin(parts, " ");
    assert |Split(RequestLine(verb, target), " ")| == 3;
  }

  /** A rendered head ends at its first blank line. */
  lemma {:induction false} NoEarlyBlank(lines: seq<bytes>)
    requires |lines| > 0
    requires forall i :: 0 <= i < |lines| ==> lines[i] != [] && '\r' !in lines[i]
    ensures Clear(Join(lines, CRLF), BLANK)
    ensures Join(lines, CRLF)[0] != '\r'
  {
    var p := lines[0];
    if |lines| == 1 {
      ClearWithoutHead(p, BLANK);
    } else {
      var tail := Join(lines[1..], CRLF);
      NoEarlyBlank(lines[1..]);
      var whole := p + CRLF + tail;
      forall j | 0 <= j < |whole|
        ensures !At(whole + BLANK, BLANK, j)
      {
        if j < |p| {
          AtChar(whole + BLANK, BLANK, j, 0);
        } else if j == |p| {
          AtChar(whole + BLANK, BLANK, j, 2);
        } else if j == |p| + 1 {
          AtChar(whole + BLANK, BLANK, j, 0);
        } else {
          assert !At(tail + BLANK, BLANK, j - |p| - 2);
          if j + 4 <= |whole| + 4 {
            assert (whole + BLANK)[j..j + 4] == (tail + BLANK)[j - |p| - 2..j - |p| + 2];
          }
        }
      }
    }
  }

  /** Every well-formed head within the limits parses back from its rendering: method upper-cased, field
      names lower-cased, order kept; and reading up to the first blank line takes exactly the head. */
  lemma {:induction false} HeadRoundTrip(verb: bytes, target: bytes, fields: seq<(bytes, bytes)>,
                                         config: ServerConfig, rest: bytes)
    requires PlainHead(verb, target, fields, config)
    ensures var raw := Render(verb, target, fields);
            var r := ParseHead(raw, config);
            && r.Ok? && r.value.verb == Upper(verb) && r.value.target == target && r.value.version == "HTTP/1.1"
            && r.value.rawPairs == LowerNames(fields) && Combined(r.value.headers, LowerNames(fields))
            && Find(raw + rest, BLANK) == |raw| - 4 >= 0
  {
    hide PlainField, Combined, ParseHead, RequestLineStatus, LegalRequestLine, RequestLine, LineStatus, LegalLine,
         Field;
    var lines := RenderLines(verb, target, fields);
    var raw := Render(verb, target, fields);
    RequestLineParses(verb, target, config);
    FieldTextsParse(fields, config);
    assert lines[1..] == FieldTexts(fields);
    assert forall i :: 1 <= i < |lines| ==> lines[i] == lines[1..][i - 1];
    NoEarlyBlank(lines);
    FindAfterClear(Join(lines, CRLF), BLANK, rest);
    FindAfterClear(Join(lines, CRLF), BLANK, []);
    assert raw + [] == raw;
    SplitJoin(lines, CRLF);
    assert raw[..|raw| - 4] == Join(lines, CRLF);
    RequestLineExactly(lines[0], config);
    HeadExact(raw, config);
  }

  /** The `$` of the token pattern lets a method end in a line feed: the method of an accepted block is a token
      exactly when it holds none, and one that holds one ends in it. */
  lemma MethodMayEndInLineFeed(raw: bytes, config: ServerConfig)
    requires ParseHead(raw, config).Ok?
    ensures var verb := ParseHead(raw, config).value.verb;
            (Token(verb) <==> '\n' !in verb) && TokenMatch(verb)
  {
    hide Lines, AddLines, Split;
    var parts := Split(Lines(raw)[0], " ");
    ThreeParts(Lines(raw)[0], config);
    UpperToken(parts[0]);
  }

  lemma UpperToken(s: bytes)
    requires TokenMatch(s)
    ensures TokenMatch(Upper(s)) && (Token(Upper(s)) <==> '\n' !in Upper(s))
  {
    var u := Upper(s);
    forall i | 0 <= i < |s| && TokenChar(s[i])
      ensures TokenChar(u[i]) && u[i] != '\n'
    {
    }
    if !Token(s) {
      var last := |s| - 1;
      assert forall i :: 0 <= i < last ==> s[..last][i] == s[i];
      assert u[..last] != [] && forall i :: 0 <= i < last ==> u[..last][i] == u[i];
      assert u[last] == '\n' && !TokenChar(u[last]);
    }
  }

  /** Every head that is otherwise accepted is accepted with a line feed after its method, too. */
  lemma LineFeedMethodAccepted(verb: bytes, target: bytes, fields: seq<(bytes, bytes)>, config: ServerConfig)
    requires Token(verb) && PlainHead(verb + "\n", target, fields, config)
    ensures var r := ParseHead(Render(verb + "\n", target, fields), config);
            r.Ok? && r.value.verb == Upper(verb) + "\n" && !Token(r.value.verb)
  {
    hide PlainHead, ParseHead, Render, Combined;
    HeadRoundTrip(verb + "\n", target, fields, config, []);
    assert Upper(verb + "\n") == Upper(verb) + "\n";
    assert (Upper(verb) + "\n")[|verb|] == '\n' && !TokenChar('\n');
  }

  /** For instance "GET" with a line feed. */
  lemma LineFeedExample(config: ServerConfig)
    requires config.maxRequestLine >= 15 && config.maxHeaders >= 1
    requires config.maxHeaderName >= 4 && config.maxHeaderValue >= 1
    ensures var r := ParseHead(Render("GET\n", "/", [("host", "a")]), config); r.Ok? && r.value.verb == "GET\n"
  {
    hide ParseHead, Render;
    var fields := [("host", "a")];
    assert Token("GET") && "GET\n"[..3] == "GET";
    assert fields[1..] == [] && Lower("host") == "host";
    assert LowerNames(fields) == [("host", "a")];
    assert LowerNames(fields)[..0] == [];
    assert PlainField(fields[0], config);
    assert PlainHead("GET\n", "/", fields, config) by {
      assert Values(LowerNames(fields), "host") == ["a"];
      assert Values(LowerNames(fields), "content-length") == [] == Values(LowerNames(fields), "transfer-encoding");
    }
    assert "GET" + "\n" == "GET\n" && Upper("GET") == "GET";
    LineFeedMethodAccepted("GET", "/", fields, config);
  }
}
