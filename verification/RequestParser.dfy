/** `parse_request` of sovereign/parser.py: header block, then a body framed by Transfer-Encoding or
    Content-Length, read from a socket that delivers the bytes in arbitrary pieces. */
module RequestParser {
  import opened Errors
  import opened Text
  import opened ChunkedCoding
  import opened SocketReaders
  import opened Sockets
  import opened Pieces
  import opened ChunkedPieces
  import opened HeaderBlock

  // ---- Content-Length ----------------------------------------------------------------------

  /** `str.isdigit()` below code 256 also holds for the superscripts. */
  predicate DigitChar(c: char) {
    '0' <= c <= '9' || c as int == 0xb2 || c as int == 0xb3 || c as int == 0xb9
  }

  predicate Decimal(s: bytes) {
    s != [] && forall i :: 0 <= i < |s| ==> '0' <= s[i] <= '9'
  }

  function DecimalValue(s: bytes): nat
    requires forall i :: 0 <= i < |s| ==> '0' <= s[i] <= '9'
  {
    if s == [] then 0 else DecimalValue(s[..|s| - 1]) * 10 + (s[|s| - 1] as int - '0' as int)
  }

  /** Longest decimal text `int()` converts. */
  const MAX_STR_DIGITS := 4300

  /** The declared length: 400 unless all digits; a superscript or an overlong number passes that test and
      makes `int()` raise. */
  function ContentLength(cl: bytes): Result<nat> {
    if cl == [] || exists i :: 0 <= i < |cl| && !DigitChar(cl[i]) then Err(Http(400))
    else if !Decimal(cl) || |cl| > MAX_STR_DIGITS then Err(Crash)
    else Ok(DecimalValue(cl))
  }

  /** A superscript two counts as a digit for `isdigit()` but not for `int()`. */
  lemma SuperscriptLength()
    ensures ContentLength([0xb2 as char]) == Err(Crash)
    ensures ContentLength("-1") == Err(Http(400)) && ContentLength([]) == Err(Http(400))
  {
    assert DigitChar([0xb2 as char][0]) && !('0' <= [0xb2 as char][0] <= '9');
    assert !DigitChar("-1"[0]);
  }

  function Get(headers: map<bytes, bytes>, name: bytes, default: bytes): bytes {
    if name in headers then headers[name] else default
  }

  // ---- what a stream is parsed to ----------------------------------------------------------

  datatype Request = Request(head: Head, body: Body, size: int)

  /** `Unsure`: the answer depends on how the stream was cut into pieces. */
  datatype Parsed = Parsed(request: Request, rest: bytes) | Refused(error: Error) | Unsure

  function ParseBody(h: Head, t: bytes, config: ServerConfig, ending: Error): Parsed {
    if Lower(Get(h.headers, "transfer-encoding", "")) == "chunked" then
      match Decode(t, 0, [], config.maxBodyBytes, ending)
      case Decoded(body, total, rest) => Parsed(Request(h, MakeBody(body, total, config), total), rest)
      case Failed(e) => Refused(e)
      case CutDependent => Unsure
    else
      match ContentLength(Get(h.headers, "content-length", "0"))
      case Err(e) => Refused(e)
      case Ok(n) =>
        if n > config.maxBodyBytes then Refused(Http(413))
        else if n > |t| then Refused(ending)
        else Parsed(Request(h, MakeBody(t[..n], n, config), n), t[n..])
  }

  function ParseStream(s: bytes, config: ServerConfig, ending: Error): Parsed {
    var k := Find(s, BLANK);
    if k < 0 then Refused(if |s| > config.maxHeaderBytes + 4 then Http(431) else ending)
    else if k + 4 > config.maxHeaderBytes + 4 + RECV then Refused(Http(431))
    else if k + 4 > config.maxHeaderBytes + 5 then Unsure
    else
      match ParseHead(s[..k + 4], config)
      case Err(e) => Refused(e)
      case Ok(h) => ParseBody(h, s[k + 4..], config, ending)
  }

  // ---- what buffer and pieces are parsed to ------------------------------------------------

  /** The body, and the bytes left unread, for every way the stream was cut. */
  function BodyCut(h: Head, src: Source, config: ServerConfig, ending: Error): Result<(Request, bytes)>
    requires src.Ready() && IsEnding(ending)
  {
    var t := src.Unread();
    if Lower(Get(h.headers, "transfer-encoding", "")) == "chunked" then
      match DecodeCut(src, 0, [], config.maxBodyBytes, ending)
      case Ok(ch) => Ok((Request(h, MakeBody(ch.body, ch.total, config), ch.total), ch.from.Unread()))
      case Err(e) => Err(e)
    else
      match ContentLength(Get(h.headers, "content-length", "0"))
      case Err(e) => Err(e)
      case Ok(n) =>
        if n > config.maxBodyBytes then Err(Http(413))
        else if n > |t| then Err(ending)
        else Ok((Request(h, MakeBody(t[..n], n, config), n), t[n..]))
  }

  function ParseCut(src: Source, config: ServerConfig, ending: Error): Result<(Request, bytes)>
    requires src.Ready() && IsEnding(ending)
  {
    SearchIs(src, BLANK, config.maxHeaderBytes + 4, ending);
    match Search(src, BLANK, config.maxHeaderBytes + 4, ending)
    case Err(e) => Err(e)
    case Ok(raw) =>
      match ParseHead(raw.data, config)
      case Err(e) => Err(e)
      case Ok(h) => BodyCut(h, raw.from, config, ending)
  }

  /** The two agree: what is known of the stream holds for every way it was cut. */
  ghost predicate Agrees(p: Parsed, r: Result<(Request, bytes)>) {
    match p
    case Parsed(request, rest) => r == Ok((request, rest))
    case Refused(e) => r == Err(e)
    case Unsure => true
  }

  lemma BodyCutIs(h: Head, src: Source, config: ServerConfig, ending: Error)
    requires src.Ready() && IsEnding(ending)
    ensures Agrees(ParseBody(h, src.Unread(), config, ending), BodyCut(h, src, config, ending))
  {
    hide Decode, DecodeCut, Decimal, DecimalValue;
    CutDecodes(src, 0, [], config.maxBodyBytes, ending);
  }

  lemma ParseCutIs(src: Source, config: ServerConfig, ending: Error)
    requires src.Ready() && IsEnding(ending)
    ensures Agrees(ParseStream(src.Unread(), config, ending), ParseCut(src, config, ending))
  {
    hide Find, Search, ParseHead, ParseBody, BodyCut, Source.Unread;
    var s := src.Unread();
    SearchIs(src, BLANK, config.maxHeaderBytes + 4, ending);
    var raw := Search(src, BLANK, config.maxHeaderBytes + 4, ending);
    if raw.Ok? {
      var n := |raw.value.data|;
      assert s[..n] == raw.value.data && s[n..] == raw.value.from.Unread();
      var h := ParseHead(raw.value.data, config);
      if h.Ok? {
        BodyCutIs(h.value, raw.value.from, config, ending);
      }
    }
  }

  /** However the stream is cut: without a blank line it is refused for its length or for the way it ends, a head of
      more than one piece beyond the limit is refused, and one within the limit with whatever is wrong with it. */
  lemma HeadRefused(src: Source, config: ServerConfig, ending: Error)
    requires src.Ready() && IsEnding(ending)
    ensures var s, r := src.Unread(), ParseCut(src, config, ending);
            var k := Find(s, BLANK);
            && (k < 0 ==> r == Err(if |s| > config.maxHeaderBytes + 4 then Http(431) else ending))
            && (k > config.maxHeaderBytes + RECV ==> r == Err(Http(431)))
            && (0 <= k <= config.maxHeaderBytes + 1 && ParseHead(s[..k + 4], config).Err? ==>
                  r == Err(ParseHead(s[..k + 4], config).error))
  {
    hide Find, Search, ParseHead, BodyCut, Source.Unread;
    SearchIs(src, BLANK, config.maxHeaderBytes + 4, ending);
  }

  // ---- the methods -------------------------------------------------------------------------

  method ReadHeaders(reader: SocketReader) returns (r: Result<bytes>)
    requires reader.Valid()
    modifies reader`buffer, reader`pieces
    ensures match Search(old(reader.State()), BLANK, reader.config.maxHeaderBytes + 4, reader.ending)
            case Ok(got) => r == Ok(got.data) && reader.State() == got.from
            case Err(e) => r == Err(e)
    ensures Searched(old(reader.Unread()), BLANK, reader.config.maxHeaderBytes + 4, reader.ending, r)
    ensures r.Ok? ==> reader.Valid() && old(reader.Unread()) == r.value + reader.Unread()
  {
    r := reader.ReadUntil(BLANK, reader.config.maxHeaderBytes + 4);
  }

  /** Reads the body the head announces. */
  method ReadBody(reader: SocketReader, h: Head) returns (r: Result<Request>)
    requires reader.Valid()
    modifies reader`buffer, reader`pieces
    ensures match BodyCut(h, old(reader.State()), reader.config, reader.ending)
            case Ok((request, rest)) => r == Ok(request) && reader.Unread() == rest
            case Err(e) => r == Err(e)
    ensures match ParseBody(h, old(reader.Unread()), reader.config, reader.ending)
            case Parsed(request, rest) => r == Ok(request) && reader.Unread() == rest
            case Refused(e) => r == Err(e)
            case Unsure => true
  {
    BodyCutIs(h, reader.State(), reader.config, reader.ending);
    hide Decode, DecodeCut, Decimal, DecimalValue, Source.Unread, ParseBody;
    if Lower(Get(h.headers, "transfer-encoding", "")) == "chunked" {
      var chunked := reader.ReadChunkedBody();
      match chunked
      case Ok((body, total)) => r := Ok(Request(h, body, total));
      case Err(e) => r := Err(e);
    } else {
      var length := ContentLength(Get(h.headers, "content-length", "0"));
      if length.Err? {
        return Err(length.error);
      }
      var size := length.value;
      if size == 0 {
        return Ok(Request(h, InMemory([]), 0));
      }
      var body := reader.ReadExactBody(size);
      match body
      case Ok(b) => r := Ok(Request(h, b, size));
      case Err(e) => r := Err(e);
    }
  }

  method ParseRequest(reader: SocketReader) returns (r: Result<Request>)
    requires reader.Valid()
    modifies reader`buffer, reader`pieces
    ensures match ParseCut(old(reader.State()), reader.config, reader.ending)
            case Ok((request, rest)) => r == Ok(request) && reader.Unread() == rest
            case Err(e) => r == Err(e)
    ensures match ParseStream(old(reader.Unread()), reader.config, reader.ending)
            case Parsed(request, rest) => r == Ok(request) && reader.Unread() == rest
            case Refused(e) => r == Err(e)
            case Unsure => true
  {
    hide BodyCut, ParseBody, ParseHead, ParseStream, Find, Search, Source.Unread;
    ParseCutIs(reader.State(), reader.config, reader.ending);
    var raw := ReadHeaders(reader);
    if raw.Err? {
      return Err(raw.error);
    }
    var head := ParseHeaderBlock(raw.value, reader.config);
    if head.Err? {
      return Err(head.error);
    }
    r := ReadBody(reader, head.value);
  }

  /** One request from a fresh connection: the result is a function of the pieces, and wherever they do not matter
      of the bytes sent. */
  method ReceiveRequest(pieces: seq<bytes>, config: ServerConfig, ending: Error)
    returns (r: Result<Request>, unread: bytes)
    requires IsEnding(ending) && AllPieces(pieces)
    ensures match ParseCut(Fresh(pieces), config, ending)
            case Ok((request, rest)) => r == Ok(request) && unread == rest
            case Err(e) => r == Err(e)
    ensures match ParseStream(Flatten(pieces), config, ending)
            case Parsed(request, rest) => r == Ok(request) && unread == rest
            case Refused(e) => r == Err(e)
            case Unsure => true
  {
    hide ParseStream, ParseCut;
    var reader := new SocketReader(config, pieces, ending);
    r := ParseRequest(reader);
    unread := Gather(reader.buffer, reader.pieces);
    assert unread == reader.Unread();
  }

  /** What is still unread, as one byte string. */
  method Gather(buffer: bytes, pieces: seq<bytes>) returns (unread: bytes)
    ensures unread == buffer + Flatten(pieces)
  {
    unread := buffer;
    for i := 0 to |pieces|
      invariant unread + Flatten(pieces[i..]) == buffer + Flatten(pieces)
    {
      assert pieces[i..][1..] == pieces[i + 1..];
      Assoc(unread, pieces[i], Flatten(pieces[i + 1..]));
      unread := unread + pieces[i];
    }
    assert pieces[|pieces|..] == [];
  }

  // ---- end to end --------------------------------------------------------------------------

  /** The head parsed from a rendered one. */
  ghost predicate HeadFor(h: Head, verb: bytes, target: bytes, fields: seq<(bytes, bytes)>) {
    && h.verb == Upper(verb) && h.target == target && h.version == "HTTP/1.1"
    && h.rawPairs == LowerNames(fields) && Combined(h.headers, h.rawPairs)
  }

  /** The request has that head and that body, in memory if it is small enough, and `rest` is still unread. */
  ghost predicate ReceivedAs(p: Parsed, verb: bytes, target: bytes, fields: seq<(bytes, bytes)>, body: bytes,
                             rest: bytes, config: ServerConfig)
  {
    && p.Parsed? && p.rest == rest
    && HeadFor(p.request.head, verb, target, fields)
    && p.request.body.content == body && p.request.size == |body|
    && (p.request.body.InMemory? <==> |body| <= config.maxMemoryBody)
  }

  lemma RenderedHead(verb: bytes, target: bytes, fields: seq<(bytes, bytes)>, t: bytes,
                     config: ServerConfig, ending: Error) returns (h: Head)
    requires PlainHead(verb, target, fields, config)
    requires |Render(verb, target, fields)| <= config.maxHeaderBytes + 5
    ensures HeadFor(h, verb, target, fields)
    ensures ParseStream(Render(verb, target, fields) + t, config, ending) == ParseBody(h, t, config, ending)
  {
    hide PlainHead, ParseHead, ParseBody, Render, Combined;
    var raw := Render(verb, target, fields);
    HeadRoundTrip(verb, target, fields, config, t);
    assert (raw + t)[..|raw|] == raw && (raw + t)[|raw|..] == t;
    h := ParseHead(raw, config).value;
  }

  lemma SingleValue(headers: map<bytes, bytes>, pairs: seq<(bytes, bytes)>, name: bytes)
    requires Combined(headers, pairs)
    ensures |Values(pairs, name)| == 0 ==> name !in headers
    ensures |Values(pairs, name)| == 1 ==> name in headers && headers[name] == Values(pairs, name)[0]
  {
    if |Values(pairs, name)| == 1 {
      JoinOne(Values(pairs, name)[0], ", ");
      assert Values(pairs, name) == [Values(pairs, name)[0]];
    }
  }

  /** A well-formed request with a chunked body is received exactly, whatever follows it on the stream. */
  lemma ChunkedRequest(verb: bytes, target: bytes, fields: seq<(bytes, bytes)>, coding: bytes,
                       cs: seq<WireChunk>, size: bytes, ext: bytes, rest: bytes, config: ServerConfig, ending: Error)
    requires PlainHead(verb, target, fields, config)
    requires |Render(verb, target, fields)| <= config.maxHeaderBytes + 5
    requires Values(LowerNames(fields), "transfer-encoding") == [coding] && Lower(coding) == "chunked"
    requires (forall i :: 0 <= i < |cs| ==> WellFormed(cs[i])) && LastSizeLine(size, ext)
    ensures var p := ParseStream(Render(verb, target, fields) + (Wire(cs, size, ext) + rest), config, ending);
            if |Payload(cs)| > config.maxBodyBytes then p == Refused(Http(413))
            else ReceivedAs(p, verb, target, fields, Payload(cs), rest, config)
  {
    hide PlainHead, ParseHead, Render, WellFormed, LastSizeLine, Decode, ParseStream, Wire, Combined, Values, Payload,
         Lower;
    var t := Wire(cs, size, ext) + rest;
    var h := RenderedHead(verb, target, fields, t, config, ending);
    SingleValue(h.headers, h.rawPairs, "transfer-encoding");
    RoundTrip(cs, size, ext, rest, 0, [], config.maxBodyBytes, ending);
    assert [] + Payload(cs) == Payload(cs);
  }

  /** A well-formed request with a declared length is received exactly. */
  lemma {:induction false} LengthRequest(verb: bytes, target: bytes, fields: seq<(bytes, bytes)>, length: bytes,
                      body: bytes, rest: bytes, config: ServerConfig, ending: Error)
    requires PlainHead(verb, target, fields, config)
    requires |Render(verb, target, fields)| <= config.maxHeaderBytes + 5
    requires Values(LowerNames(fields), "content-length") == [length]
    requires length != [] && (forall i :: 0 <= i < |length| ==> '0' <= length[i] <= '9') && |length| <= 4300
    requires DecimalValue(length) == |body|
    ensures var p := ParseStream(Render(verb, target, fields) + (body + rest), config, ending);
            if |body| > config.maxBodyBytes then p == Refused(Http(413))
            else ReceivedAs(p, verb, target, fields, body, rest, config)
  {
    hide ParseHead, Render, Decode, ParseStream, DecimalValue, Combined, Values;
    var h := RenderedHead(verb, target, fields, body + rest, config, ending);
    SingleValue(h.headers, h.rawPairs, "content-length");
    SingleValue(h.headers, h.rawPairs, "transfer-encoding");
    assert |Values(h.rawPairs, "transfer-encoding")| == 0;
    assert Lower("") == "";
    assert forall i :: 0 <= i < |length| ==> DigitChar(length[i]);
    assert (body + rest)[..|body|] == body && (body + rest)[|body|..] == rest;
  }

  /** A well-formed request that announces no body, or an encoding other than chunked without a length, is complete
      with its blank line: it needs nothing behind it, and takes nothing of what follows. */
  lemma {:induction false} BodylessRequest(verb: bytes, target: bytes, fields: seq<(bytes, bytes)>, rest: bytes,
                                           config: ServerConfig, ending: Error)
    requires PlainHead(verb, target, fields, config)
    requires |Render(verb, target, fields)| <= config.maxHeaderBytes + 5
    requires Values(LowerNames(fields), "content-length") == []
    requires forall coding :: coding in Values(LowerNames(fields), "transfer-encoding") ==> Lower(coding) != "chunked"
    ensures var p := ParseStream(Render(verb, target, fields) + rest, config, ending);
            ReceivedAs(p, verb, target, fields, [], rest, config)
  {
    hide ParseHead, Render, Decode, ParseStream, DecimalValue, Combined, Values;
    var h := RenderedHead(verb, target, fields, rest, config, ending);
    SingleValue(h.headers, h.rawPairs, "content-length");
    SingleValue(h.headers, h.rawPairs, "transfer-encoding");
    assert |Values(h.rawPairs, "transfer-encoding")| <= 1;
    assert Lower("") == "";
    ZeroLength();
    assert rest[..0] == [] && rest[0..] == rest;
  }

  lemma ZeroLength()
    ensures ContentLength("0") == Ok(0)
  {
    assert DigitChar("0"[0]) && "0"[..0] == [];
  }

  /** A declared length that is no number is refused with 400; digits `int()` does not know, and too many of them,
      make it raise; and fewer bytes than declared are answered with how the socket ends. */
  lemma {:induction false} LengthRefused(verb: bytes, target: bytes, fields: seq<(bytes, bytes)>, length: bytes,
                                         rest: bytes, config: ServerConfig, ending: Error)
    requires PlainHead(verb, target, fields, config)
    requires |Render(verb, target, fields)| <= config.maxHeaderBytes + 5
    requires Values(LowerNames(fields), "content-length") == [length]
    ensures var p := ParseStream(Render(verb, target, fields) + rest, config, ending);
            && (!PassesDigitTest(length) ==> p == Refused(Http(400)))
            && (PassesDigitTest(length) && (|length| > 4300 || exists c :: c in length && c in SUPERSCRIPTS) ==>
                  p == Refused(Crash))
            && (Decimal(length) && |length| <= 4300 && |rest| < DecimalValue(length) <= config.maxBodyBytes ==>
                  p == Refused(ending))
  {
    hide ParseHead, Render, Decode, ParseStream, DecimalValue, Combined, Values;
    var h := RenderedHead(verb, target, fields, rest, config, ending);
    SingleValue(h.headers, h.rawPairs, "content-length");
    SingleValue(h.headers, h.rawPairs, "transfer-encoding");
    assert |Values(h.rawPairs, "transfer-encoding")| == 0;
    assert Lower("") == "";
    assert forall c :: c in SUPERSCRIPTS <==> c as int == 0xb2 || c as int == 0xb3 || c as int == 0xb9;
    assert forall i :: 0 <= i < |length| ==> length[i] in length;
  }

  /** The characters that are digits for `isdigit()` but not for `int()`. */
  const SUPERSCRIPTS: bytes := "\U{b2}\U{b3}\U{b9}"

  predicate PassesDigitTest(s: bytes) {
    s != [] && forall c :: c in s ==> '0' <= c <= '9' || c in SUPERSCRIPTS
  }

  /** A length in decimal, as a client prints it. */
  function ToDecimal(n: nat): (s: bytes)
    ensures s != [] && (forall i :: 0 <= i < |s| ==> '0' <= s[i] <= '9') && DecimalValue(s) == n
  {
    var last := [('0' as int + n % 10) as char];
    if n < 10 then
      assert last[..0] == [];
      last
    else
      var s := ToDecimal(n / 10) + last;
      assert s[..|s| - 1] == ToDecimal(n / 10);
      s
  }

  /** In particular a body announced with its length in decimal, of whatever size within the limits. */
  lemma PrintedLengthRequest(verb: bytes, target: bytes, fields: seq<(bytes, bytes)>, body: bytes, rest: bytes,
                             config: ServerConfig, ending: Error)
    requires PlainHead(verb, target, fields, config)
    requires |Render(verb, target, fields)| <= config.maxHeaderBytes + 5
    requires Values(LowerNames(fields), "content-length") == [ToDecimal(|body|)]
    requires |ToDecimal(|body|)| <= 4300
    ensures var p := ParseStream(Render(verb, target, fields) + (body + rest), config, ending);
            if |body| > config.maxBodyBytes then p == Refused(Http(413))
            else ReceivedAs(p, verb, target, fields, body, rest, config)
  {
    hide ParseStream, PlainHead, Render, Values, DecimalValue;
    LengthRequest(verb, target, fields, ToDecimal(|body|), body, rest, config, ending);
  }
}
