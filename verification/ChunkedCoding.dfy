/** The chunked transfer coding (section 7.1 of RFC 9112) on whole byte streams: the wire format, the
    server's writer, and what the blocking and the asyncio decoder make of a stream once the way it was
    cut into `recv` pieces is forgotten. */
module ChunkedCoding {
  import opened Errors
  import opened Text
  import Sockets

  const LINE_LIMIT := 8192
  const STREAM_LIMIT := 65536

  // ---- chunk sizes -------------------------------------------------------------------------

  function DigitValue(c: char): (d: int)
    ensures -1 <= d < 16
  {
    if '0' <= c <= '9' then c as int - '0' as int
    else if 'a' <= c <= 'f' then c as int - 'a' as int + 10
    else if 'A' <= c <= 'F' then c as int - 'A' as int + 10
    else -1
  }

  /** The digits of a Python integer literal in base 16: single underscores may separate digits. */
  function ParseDigits(s: bytes, acc: nat): Option<nat> {
    if s == [] || DigitValue(s[0]) < 0 then None
    else
      var v := acc * 16 + DigitValue(s[0]);
      if |s| == 1 then Some(v)
      else if s[1] == '_' then ParseDigits(s[2..], v)
      else ParseDigits(s[1..], v)
  }

  /** Digits after an optional `0x` prefix. */
  function ParseMagnitude(s: bytes): Option<nat> {
    if |s| >= 2 && s[0] == '0' && (s[1] == 'x' || s[1] == 'X') then
      ParseDigits(if |s| >= 3 && s[2] == '_' then s[3..] else s[2..], 0)
    else
      ParseDigits(s, 0)
  }

  /** `int(s, 16)`: more than the 1*HEXDIG of the standard, negative numbers included. */
  function ParseInt16(s: bytes): Option<int> {
    var signed := s != [] && (s[0] == '-' || s[0] == '+');
    var magnitude := ParseMagnitude(if signed then s[1..] else s);
    if magnitude.None? then None
    else if signed && s[0] == '-' then Some(0 - magnitude.value)
    else Some(magnitude.value)
  }

  function BeforeSemicolon(line: bytes): bytes {
    var k := Find(line, ";");
    if k < 0 then line else line[..k]
  }

  function ParseSize(line: bytes): Option<int> {
    ParseInt16(StripBytes(BeforeSemicolon(line)))
  }

  predicate AllHex(s: bytes) {
    forall i :: 0 <= i < |s| ==> DigitValue(s[i]) >= 0
  }

  /** The number a hexadecimal text denotes. */
  function HexValue(s: bytes): nat
    requires AllHex(s)
  {
    if s == [] then 0 else HexValue(s[..|s| - 1]) * 16 + DigitValue(s[|s| - 1])
  }

  function Digit(d: nat): (c: char)
    requires d < 16
    ensures DigitValue(c) == d
  {
    if d < 10 then ('0' as int + d) as char else ('A' as int + d - 10) as char
  }

  /** `f"{n:X}"` */
  function ToHex(n: nat): (s: bytes)
    ensures s != [] && AllHex(s)
    ensures HexValue(s) == n
  {
    if n < 16 then [Digit(n)]
    else
      var s := ToHex(n / 16) + [Digit(n % 16)];
      assert s[..|s| - 1] == ToHex(n / 16);
      s
  }

  function Pow16(k: nat): nat {
    if k == 0 then 1 else 16 * Pow16(k - 1)
  }

  lemma Pow16By4(k: nat)
    ensures Pow16(k + 4) == 0x1_0000 * Pow16(k)
  {
    assert Pow16(k + 2) == 16 * Pow16(k + 1);
    assert Pow16(k + 4) == 16 * Pow16(k + 3);
  }

  lemma {:induction false} HexLength(n: nat, k: nat)
    requires k > 0 && n < Pow16(k)
    ensures |ToHex(n)| <= k
  {
    assert Pow16(1) == 16;
    if n >= 16 {
      HexLength(n / 16, k - 1);
    }
  }

  /** Left-to-right reading, the way the parser accumulates. */
  function HexFold(s: bytes, acc: nat): nat
    requires AllHex(s)
  {
    if s == [] then acc else HexFold(s[1..], acc * 16 + DigitValue(s[0]))
  }

  lemma {:induction false} HexFoldSnoc(s: bytes, acc: nat)
    requires AllHex(s) && s != []
    ensures HexFold(s, acc) == HexFold(s[..|s| - 1], acc) * 16 + DigitValue(s[|s| - 1])
  {
    if |s| > 1 {
      HexFoldSnoc(s[1..], acc * 16 + DigitValue(s[0]));
      assert s[1..][..|s| - 2] == s[..|s| - 1][1..];
    } else {
      assert s[..0] == [] && s[1..] == [];
    }
  }

  lemma {:induction false} HexFoldValue(s: bytes)
    requires AllHex(s)
    ensures HexFold(s, 0) == HexValue(s)
  {
    if s == [] {
    } else {
      HexFoldSnoc(s, 0);
      HexFoldValue(s[..|s| - 1]);
    }
  }

  lemma {:induction false} ParseDigitsHex(s: bytes, acc: nat)
    requires AllHex(s) && s != []
    ensures ParseDigits(s, acc) == Some(HexFold(s, acc))
  {
    if |s| == 1 {
      assert s[1..] == [];
    } else {
      assert DigitValue(s[1]) >= 0;
      ParseDigitsHex(s[1..], acc * 16 + DigitValue(s[0]));
    }
  }

  lemma BeforeSemicolonHex(size: bytes, ext: bytes)
    requires AllHex(size)
    requires ext == [] || ext[0] == ';'
    ensures BeforeSemicolon(size + ext) == size
  {
    var line := size + ext;
    forall j | 0 <= j < |size|
      ensures !At(line, ";", j)
    {
      AtChar(line, ";", j, 0);
      assert DigitValue(size[j]) >= 0;
    }
    if ext == [] {
      assert line == size;
      assert forall j :: At(line, ";", j) ==> 0 <= j < |size|;
    } else {
      assert line[|size|..|size| + 1] == ";";
      FindIs(line, ";", |size|);
      assert line[..|size|] == size;
    }
  }

  lemma ParseInt16Hex(size: bytes)
    requires size != [] && AllHex(size)
    ensures StripBytes(size) == size
    ensures ParseInt16(size) == Some(HexValue(size))
  {
    assert DigitValue(size[0]) >= 0 && DigitValue(size[|size| - 1]) >= 0;
    assert |size| >= 2 ==> DigitValue(size[1]) >= 0;
    ParseDigitsHex(size, 0);
    HexFoldValue(size);
  }

  /** A size line made of hexadecimal digits and an optional extension is read as the number it denotes. */
  lemma ParseSizeHex(size: bytes, ext: bytes)
    requires size != [] && AllHex(size)
    requires ext == [] || ext[0] == ';'
    ensures ParseSize(size + ext) == Some(HexValue(size))
  {
    hide ParseInt16, BeforeSemicolon, StripBytes;
    BeforeSemicolonHex(size, ext);
    ParseInt16Hex(size);
  }

  /** `int()` takes more than 1*HEXDIG, a sign or a prefix for instance. What negative sizes do is stated with
      `ChunkedPieces.DecodeCut`. */
  lemma LenientSizes(size: bytes)
    requires size != [] && AllHex(size)
    ensures ParseSize("-" + size) == Some(0 - HexValue(size)) && ParseSize("+" + size) == Some(HexValue(size))
    ensures ParseSize("0x" + size) == Some(HexValue(size))
  {
    Lenient("-", size);
    Lenient("+", size);
    Lenient("0x", size);
  }

  lemma Lenient(sign: bytes, size: bytes)
    requires size != [] && AllHex(size)
    requires sign in {"-", "+", "0x"}
    ensures ParseSize(sign + size) == Some(if sign == "-" then 0 - HexValue(size) else HexValue(size))
  {
    hide BeforeSemicolon, ParseInt16, StripBytes, HexValue;
    var line := sign + size;
    forall j | 0 <= j < |line|
      ensures line[j] != ';'
    {
      if j >= |sign| { assert DigitValue(size[j - |sign|]) >= 0; }
    }
    NoSemicolon(line);
    LenientStrip(sign, size);
    LenientInt(sign, size);
  }

  lemma LenientStrip(sign: bytes, size: bytes)
    requires size != [] && AllHex(size)
    requires sign in {"-", "+", "0x"}
    ensures StripBytes(sign + size) == sign + size
  {
    var line := sign + size;
    assert DigitValue(size[|size| - 1]) >= 0 && line[|line| - 1] == size[|size| - 1];
  }

  lemma {:induction false} LenientInt(sign: bytes, size: bytes)
    requires size != [] && AllHex(size)
    requires sign in {"-", "+", "0x"}
    ensures ParseInt16(sign + size) == Some(if sign == "-" then 0 - HexValue(size) else HexValue(size))
  {
    MagnitudeOf(size);
    hide ParseMagnitude, HexValue;
    if sign == "0x" {
      assert sign + size == "0x" + size && (sign + size)[0] == '0';
    } else {
      assert (sign + size)[1..] == size;
    }
  }

  lemma MagnitudeOf(size: bytes)
    requires size != [] && AllHex(size)
    ensures ParseMagnitude(size) == Some(HexValue(size)) && ParseMagnitude("0x" + size) == Some(HexValue(size))
  {
    ParseDigitsHex(size, 0);
    HexFoldValue(size);
    hide ParseDigits, HexValue, HexFold;
    assert DigitValue(size[0]) >= 0 && ("0x" + size)[2] == size[0];
    assert ("0x" + size)[2..] == size;
  }

  lemma NoSemicolon(line: bytes)
    requires ';' !in line
    ensures BeforeSemicolon(line) == line
  {
    SplitSingle(line, ";");
  }

  // ---- the wire format ---------------------------------------------------------------------

  datatype WireChunk = WireChunk(size: bytes, ext: bytes, data: bytes)

  /** 1*HEXDIG followed by an optional extension, short enough for one line read. */
  predicate SizeLine(size: bytes, ext: bytes) {
    && size != [] && AllHex(size)
    && (ext == [] || ext[0] == ';')
    && '\r' !in ext && '\n' !in ext
    && |size| + |ext| + 2 <= LINE_LIMIT + 1
  }

  predicate WellFormed(c: WireChunk) {
    SizeLine(c.size, c.ext) && c.data != [] && HexValue(c.size) == |c.data|
  }

  predicate LastSizeLine(size: bytes, ext: bytes) {
    SizeLine(size, ext) && HexValue(size) == 0
  }

  function WireOne(c: WireChunk): bytes {
    c.size + c.ext + CRLF + c.data + CRLF
  }

  function Wire(cs: seq<WireChunk>, size: bytes, ext: bytes): bytes {
    if cs == [] then size + ext + CRLF + CRLF else WireOne(cs[0]) + Wire(cs[1..], size, ext)
  }

  function Payload(cs: seq<WireChunk>): bytes {
    if cs == [] then [] else cs[0].data + Payload(cs[1..])
  }

  // ---- what a stream decodes to ------------------------------------------------------------

  /** `CutDependent`: the code's answer depends on how the stream was cut into pieces. */
  datatype Outcome =
    | Decoded(body: bytes, total: int, rest: bytes)
    | Failed(error: Error)
    | CutDependent

  /** What one round of a decoder's loop does. */
  datatype Step =
    | Chunk(data: bytes, next: bytes)
    | Skip(size: int, next: bytes)       // a negative size, which lowers the total
    | End(next: bytes)
    | Stop(error: Error)
    | Cut

  /** The data of a chunk whose size is known, at the start of `t`. */
  function TakeChunk(t: bytes, size: nat, ending: Error): (r: Step)
    ensures r.Chunk? ==> |r.data| == size && |r.next| == |t| - size - 2
  {
    if |t| < size + 2 then Stop(ending)
    else if t[size..size + 2] != CRLF then Stop(Http(400))
    else Chunk(t[..size], t[size + 2..])
  }

  /** Most bytes of `t` that a reader can hold in its buffer after a line. */
  function MostHeld(t: bytes): nat {
    if |t| < Sockets.RECV - 1 then |t| else Sockets.RECV - 1
  }

  /** A negative size takes the buffer without its last `-size` bytes. That is nothing, whatever the pieces, if the
      buffer cannot hold more than those; the line end must follow at once then. */
  function SkipChunk(t: bytes, size: int, ending: Error): (r: Step)
    ensures r.Skip? ==> |r.next| < |t|
  {
    if MostHeld(t) + size > 0 then Cut
    else match TakeChunk(t, 0, ending) case Chunk(_, next) => Skip(size, next) case other => other
  }

  /** One CRLF-terminated line: what follows it, or why there is none. A line that ends within one piece beyond
      the limit is found or not, depending on the pieces; a longer one is always refused. */
  function LineStep(s: bytes, ending: Error): (r: Step)
    ensures r.End? ==> |r.next| < |s|
  {
    var k := Find(s, CRLF);
    if k < 0 then Stop(if |s| > LINE_LIMIT then Http(431) else ending)
    else if k + 2 > LINE_LIMIT + Sockets.RECV then Stop(Http(431))
    else if k + 2 > LINE_LIMIT + 1 then Cut
    else End(s[k + 2..])
  }

  /** One round of the blocking decoder on a stream `s` that ends with `ending`. */
  function SyncStep(s: bytes, total: int, max: nat, ending: Error): (r: Step)
    ensures r.Chunk? || r.Skip? ==> |r.next| < |s|
  {
    var line := LineStep(s, ending);
    if !line.End? then line
    else
      match ParseSize(s[..Find(s, CRLF)])
      case None => Stop(Http(400))
      case Some(size) =>
        if size == 0 then LineStep(line.next, ending)
        else if total + size > max then Stop(Http(413))
        else if size < 0 then SkipChunk(line.next, size, ending)
        else TakeChunk(line.next, size, ending)
  }

  /** The blocking decoder on a whole stream. */
  function Decode(s: bytes, total: int, body: bytes, max: nat, ending: Error): Outcome
    decreases |s|
  {
    match SyncStep(s, total, max, ending)
    case Chunk(data, t) => Decode(t, total + |data|, body + data, max, ending)
    case Skip(size, t) => Decode(t, total + size, body, max, ending)
    case End(rest) => Decoded(body, total, rest)
    case Stop(e) => Failed(e)
    case Cut => CutDependent
  }

  /** `StreamReader.readline()` on a stream: the line with its line feed, and what follows. */
  function ReadLine(s: bytes, ending: Error): Result<(bytes, bytes)> {
    var k := Find(s, "\n");
    if k < 0 then
      if |s| > STREAM_LIMIT || ending != ClientClosed then Err(Crash) else Ok((s, []))
    else if k > STREAM_LIMIT then Err(Crash)
    else Ok((s[..k + 1], s[k + 1..]))
  }

  /** One round of the asyncio decoder. */
  function AsyncStep(s: bytes, total: int, max: nat, ending: Error): (r: Step)
    ensures r.Chunk? ==> |r.next| < |s|
    ensures !r.Skip? && !r.Cut?
  {
    match ReadLine(s, ending)
    case Err(e) => Stop(e)
    case Ok((line, t)) =>
      if line == [] then Stop(ClientClosed)
      else
        match ParseSize(StripLineEnd(line))
        case None => Stop(Http(400))
        case Some(size) =>
          if size == 0 then
            match ReadLine(t, ending) case Err(e) => Stop(e) case Ok((_, rest)) => End(rest)
          else if total + size > max then Stop(Http(413))
          else if size < 0 then Stop(Crash)
          else TakeChunk(t, size, ending)
  }

  /** The asyncio decoder on a whole stream. */
  function AsyncDecode(s: bytes, total: int, body: bytes, max: nat, ending: Error): Outcome
    decreases |s|
  {
    match AsyncStep(s, total, max, ending)
    case Chunk(data, t) => AsyncDecode(t, total + |data|, body + data, max, ending)
    case End(rest) => Decoded(body, total, rest)
    case Stop(e) => Failed(e)
  }

  // ---- round trip --------------------------------------------------------------------------

  lemma SizeLineFirst(size: bytes, ext: bytes, t: bytes)
    requires SizeLine(size, ext)
    ensures Find(size + ext + CRLF + t, CRLF) == |size + ext|
    ensures (size + ext + CRLF + t)[..|size + ext|] == size + ext
    ensures (size + ext + CRLF + t)[|size + ext| + 2..] == t
    ensures '\r' !in size + ext && '\n' !in size + ext
    ensures ParseSize(size + ext) == Some(HexValue(size))
  {
    ParseSizeHex(size, ext);
    forall i | 0 <= i < |size|
      ensures size[i] != '\r' && size[i] != '\n'
    {
      assert DigitValue(size[i]) >= 0;
    }
    ClearWithoutHead(size + ext, CRLF);
    FindAfterClear(size + ext, CRLF, t);
  }

  /** One well-formed chunk is consumed exactly. */
  lemma StepChunk(c: WireChunk, t: bytes, total: int, max: nat, ending: Error)
    requires WellFormed(c)
    ensures SyncStep(WireOne(c) + t, total, max, ending)
         == if total + |c.data| > max then Stop(Http(413)) else Chunk(c.data, t)
    ensures PlainStep(WireOne(c) + t, total, max)
  {
    hide Find, HexValue, ParseSize, AllHex;
    var u := c.data + CRLF + t;
    var s := WireOne(c) + t;
    assert s == c.size + c.ext + CRLF + u;
    SizeLineFirst(c.size, c.ext, u);
    var n := |c.data|;
    assert u[..n] == c.data && u[n..n + 2] == CRLF && u[n + 2..] == t;
  }

  lemma StepEnd(size: bytes, ext: bytes, rest: bytes, total: int, max: nat, ending: Error)
    requires LastSizeLine(size, ext)
    ensures SyncStep(size + ext + CRLF + (CRLF + rest), total, max, ending) == End(rest)
    ensures PlainStep(size + ext + CRLF + (CRLF + rest), total, max)
  {
    var t := CRLF + rest;
    SizeLineFirst(size, ext, t);
    FindAfterClear([], CRLF, rest);
    assert [] + CRLF + rest == t && t[2..] == rest;
  }

  /** Every well-formed trailer-free encoding decodes to exactly its payload, and leaves exactly what
      follows it; one whose payload exceeds the limit is rejected with 413. */
  lemma {:induction false} RoundTrip(cs: seq<WireChunk>, size: bytes, ext: bytes, rest: bytes,
                                     total: int, body: bytes, max: nat, ending: Error)
    requires forall i :: 0 <= i < |cs| ==> WellFormed(cs[i])
    requires LastSizeLine(size, ext) && total <= max
    ensures Decode(Wire(cs, size, ext) + rest, total, body, max, ending)
         == if total + |Payload(cs)| > max then Failed(Http(413))
            else Decoded(body + Payload(cs), total + |Payload(cs)|, rest)
  {
    hide SyncStep, PlainStep, WellFormed, WireOne, LastSizeLine;
    if cs == [] {
      assert Wire(cs, size, ext) + rest == size + ext + CRLF + (CRLF + rest);
      StepEnd(size, ext, rest, total, max, ending);
      assert body + [] == body;
    } else {
      var c := cs[0];
      var t := Wire(cs[1..], size, ext) + rest;
      assert Wire(cs, size, ext) + rest == WireOne(c) + t;
      StepChunk(c, t, total, max, ending);
      if total + |c.data| <= max {
        RoundTrip(cs[1..], size, ext, rest, total + |c.data|, body + c.data, max, ending);
        assert body + c.data + Payload(cs[1..]) == body + Payload(cs);
      }
    }
  }

  // ---- the server's writer -----------------------------------------------------------------

  /** The bytes `write_response` sends for one nonempty chunk. */
  function WriteOne(chunk: bytes): bytes {
    ToHex(|chunk|) + CRLF + chunk + CRLF
  }

  /** The bytes `write_response` sends for a stream of chunks; empty chunks are skipped. */
  function Written(chunks: seq<bytes>): bytes {
    if chunks == [] then [] else (if chunks[0] == [] then [] else WriteOne(chunks[0])) + Written(chunks[1..])
  }

  function Concat(chunks: seq<bytes>): bytes {
    if chunks == [] then [] else chunks[0] + Concat(chunks[1..])
  }

  method WriteChunks(chunks: seq<bytes>) returns (sent: bytes)
    ensures sent == Written(chunks) + "0\r\n\r\n"
  {
    hide WriteOne, Written;
    sent := [];
    for i := 0 to |chunks|
      invariant sent + Written(chunks[i..]) == Written(chunks)
    {
      WrittenFrom(chunks, i, sent);
      var chunk := chunks[i];
      if chunk != [] {
        sent := sent + WriteOne(chunk);
      }
    }
    NothingWritten(chunks, sent);
    sent := sent + "0\r\n\r\n";
  }

  lemma WrittenFrom(chunks: seq<bytes>, i: nat, sent: bytes)
    requires i < |chunks|
    ensures var next := if chunks[i] == [] then sent else sent + WriteOne(chunks[i]);
            sent + Written(chunks[i..]) == next + Written(chunks[i + 1..])
  {
    hide WriteOne;
    assert chunks[i..][1..] == chunks[i + 1..];
    if chunks[i] == [] {
      assert [] + Written(chunks[i + 1..]) == Written(chunks[i + 1..]);
    } else {
      Assoc(sent, WriteOne(chunks[i]), Written(chunks[i + 1..]));
    }
  }

  lemma NothingWritten(chunks: seq<bytes>, sent: bytes)
    ensures sent + Written(chunks[|chunks|..]) == sent
  {
  }

  /** The writer's output as a list of wire chunks. */
  function AsWire(chunks: seq<bytes>): seq<WireChunk> {
    if chunks == [] then []
    else if chunks[0] == [] then AsWire(chunks[1..])
    else [WireChunk(ToHex(|chunks[0]|), [], chunks[0])] + AsWire(chunks[1..])
  }

  /** The largest length of a Python object (`sys.maxsize`). */
  const MAX_OBJECT := 0x7FFF_FFFF_FFFF_FFFF

  lemma {:induction false} WriteOneIsWire(chunk: bytes)
    requires 0 < |chunk| <= MAX_OBJECT
    ensures WellFormed(WireChunk(ToHex(|chunk|), [], chunk))
    ensures WireOne(WireChunk(ToHex(|chunk|), [], chunk)) == WriteOne(chunk)
  {
    Pow16By4(0); Pow16By4(4); Pow16By4(8); Pow16By4(12);
    HexLength(|chunk|, 16);
    assert ToHex(|chunk|) + [] == ToHex(|chunk|);
  }

  lemma {:induction false} WriterIsWellFormed(chunks: seq<bytes>)
    requires forall i :: 0 <= i < |chunks| ==> |chunks[i]| <= MAX_OBJECT
    ensures Written(chunks) + "0\r\n\r\n" == Wire(AsWire(chunks), "0", [])
    ensures forall i :: 0 <= i < |AsWire(chunks)| ==> WellFormed(AsWire(chunks)[i])
    ensures Payload(AsWire(chunks)) == Concat(chunks)
  {
    hide WriteOne, WireOne, WellFormed, ToHex;
    if chunks == [] {
    } else {
      WriterIsWellFormed(chunks[1..]);
      if chunks[0] == [] {
        assert Written(chunks) == Written(chunks[1..]);
      } else {
        WriteOneIsWire(chunks[0]);
        Assoc(WriteOne(chunks[0]), Written(chunks[1..]), "0\r\n\r\n");
        assert AsWire(chunks)[1..] == AsWire(chunks[1..]);
      }
    }
  }

  /** What the server writes, any decoder of the server reads back: nothing lost, nothing added, and
      the bytes after the response stay unread. */
  lemma WriterRoundTrip(chunks: seq<bytes>, rest: bytes, max: nat, ending: Error)
    requires forall i :: 0 <= i < |chunks| ==> |chunks[i]| <= MAX_OBJECT
    ensures Decode(Written(chunks) + "0\r\n\r\n" + rest, 0, [], max, ending)
         == if |Concat(chunks)| > max then Failed(Http(413))
            else Decoded(Concat(chunks), |Concat(chunks)|, rest)
    ensures AsyncDecode(Written(chunks) + "0\r\n\r\n" + rest, 0, [], max, ending)
         == Decode(Written(chunks) + "0\r\n\r\n" + rest, 0, [], max, ending)
  {
    hide Decode, AsyncDecode, PlainLines, WriteOne;
    WriterIsWellFormed(chunks);
    assert HexValue("0") == HexValue("") * 16 + 0 by { assert "0"[..0] == ""; }
    RoundTrip(AsWire(chunks), "0", [], rest, 0, [], max, ending);
    WireIsPlain(AsWire(chunks), "0", [], rest, 0, max, ending);
    DecodersAgree(Written(chunks) + "0\r\n\r\n" + rest, 0, [], max, ending);
  }

  // ---- the two decoders --------------------------------------------------------------------

  predicate PlainLine(s: bytes, k: int) {
    0 <= k < LINE_LIMIT && k <= |s| && '\r' !in s[..k] && '\n' !in s[..k]
  }

  /** The lines this round reads end in CRLF within the limit, hold no other line-end character, and the
      size among them is not negative. */
  predicate PlainStep(s: bytes, total: int, max: nat) {
    var k := Find(s, CRLF);
    PlainLine(s, k) &&
    match ParseSize(s[..k])
    case None => true
    case Some(size) =>
      var t := s[k + 2..];
      if size == 0 then PlainLine(t, Find(t, CRLF)) else size > 0 || total + size > max
  }

  predicate PlainLines(s: bytes, total: int, max: nat, ending: Error)
    decreases |s|
  {
    PlainStep(s, total, max) &&
    var step := SyncStep(s, total, max, ending);
    step.Chunk? ==> PlainLines(step.next, total + |step.data|, max, ending)
  }

  lemma ReadPlainLine(s: bytes, ending: Error)
    requires PlainLine(s, Find(s, CRLF))
    ensures var k := Find(s, CRLF);
            && ReadLine(s, ending) == Ok((s[..k + 2], s[k + 2..])) && StripLineEnd(s[..k + 2]) == s[..k]
            && LineStep(s, ending) == End(s[k + 2..])
  {
    var k := Find(s, CRLF);
    AtChar(s, CRLF, k, 0);
    AtChar(s, CRLF, k, 1);
    forall j | 0 <= j < k + 1
      ensures !At(s, "\n", j)
    {
      AtChar(s, "\n", j, 0);
      if j < k { assert s[..k][j] == s[j]; }
    }
    assert s[k + 1..k + 2] == "\n";
    FindIs(s, "\n", k + 1);
    var line := s[..k + 2];
    assert line[..k + 1][..k] == s[..k];
    if k > 0 { assert s[..k][k - 1] == s[k - 1]; }
    assert StripLineEnd(s[..k]) == s[..k];
    assert StripLineEnd(line[..k + 1]) == StripLineEnd(s[..k]);
    assert StripLineEnd(line) == StripLineEnd(line[..k + 1]);
  }

  lemma StepsAgree(s: bytes, total: int, max: nat, ending: Error)
    requires PlainStep(s, total, max)
    ensures AsyncStep(s, total, max, ending) == SyncStep(s, total, max, ending)
  {
    hide ParseSize, Find, TakeChunk, StripLineEnd, LineStep, ReadLine;
    var k := Find(s, CRLF);
    ReadPlainLine(s, ending);
    if ParseSize(s[..k]) == Some(0) {
      ReadPlainLine(s[k + 2..], ending);
    }
  }

  /** On a stream with plain lines the blocking and the asyncio decoder agree on everything: body, total,
      unread rest and every rejection. */
  lemma {:induction false} DecodersAgree(s: bytes, total: int, body: bytes, max: nat, ending: Error)
    requires PlainLines(s, total, max, ending)
    ensures AsyncDecode(s, total, body, max, ending) == Decode(s, total, body, max, ending)
    decreases |s|
  {
    hide SyncStep, AsyncStep, PlainStep;
    StepsAgree(s, total, max, ending);
    var step := SyncStep(s, total, max, ending);
    if step.Chunk? {
      DecodersAgree(step.next, total + |step.data|, body + step.data, max, ending);
    }
  }

  lemma WireIsPlain(cs: seq<WireChunk>, size: bytes, ext: bytes, rest: bytes, total: int, max: nat, ending: Error)
    requires forall i :: 0 <= i < |cs| ==> WellFormed(cs[i])
    requires LastSizeLine(size, ext)
    ensures PlainLines(Wire(cs, size, ext) + rest, total, max, ending)
    decreases cs
  {
    hide SyncStep, AsyncStep, PlainStep;
    if cs == [] {
      assert Wire(cs, size, ext) + rest == size + ext + CRLF + (CRLF + rest);
      StepEnd(size, ext, rest, total, max, ending);
    } else {
      var t := Wire(cs[1..], size, ext) + rest;
      assert Wire(cs, size, ext) + rest == WireOne(cs[0]) + t;
      StepChunk(cs[0], t, total, max, ending);
      WireIsPlain(cs[1..], size, ext, rest, total + |cs[0].data|, max, ending);
    }
  }

  /** Outside plain lines they differ. The peer stops right after the last chunk line: the blocking
      decoder reports a closed client, the asyncio decoder accepts the body. */
  lemma DecodersDifferOnMissingTrailer(max: nat)
    ensures Decode("0\r\n", 0, [], max, ClientClosed) == Failed(ClientClosed)
    ensures AsyncDecode("0\r\n", 0, [], max, ClientClosed) == Decoded([], 0, [])
  {
    SizeLineFirst("0", [], []);
    assert "0" + [] + CRLF + [] == "0\r\n";
    assert HexValue("0") == HexValue("") * 16 + 0 by { assert "0"[..0] == ""; }
    ReadPlainLine("0\r\n", ClientClosed);
    assert Find("", CRLF) < 0 && Find("", "\n") < 0;
  }
}
