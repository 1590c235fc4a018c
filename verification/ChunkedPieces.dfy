/** `read_chunked_body` of sovereign/parser.py as a function of the reader's buffer and pieces, for every chunk
    size that `int()` accepts; where the pieces do not matter, and what negative sizes do to the body limit. */
module ChunkedPieces {
  import opened Errors
  import opened Text
  import opened Sockets
  import opened Pieces
  import opened ChunkedCoding

  datatype Chunked = Chunked(body: bytes, total: int, from: Source)

  function SizeOf(line: bytes): Option<int> {
    if |line| < 2 then None else ParseSize(line[..|line| - 2])
  }

  function DecodeCut(src: Source, total: int, body: bytes, max: nat, ending: Error): Result<Chunked>
    requires src.Ready() && IsEnding(ending)
    decreases |src.Unread()|
  {
    SearchLine(src, ending);
    match Search(src, CRLF, LINE_LIMIT, ending)
    case Err(e) => Err(e)
    case Ok(line) =>
      match SizeOf(line.data)
      case None => Err(Http(400))
      case Some(size) =>
        if size == 0 then
          match Search(line.from, CRLF, LINE_LIMIT, ending)
          case Err(e) => Err(e)
          case Ok(trailer) => Ok(Chunked(body, total, trailer.from))
        else if total + size > max then Err(Http(413))
        else
          match TakeData(line.from, size, ending)
          case Err(e) => Err(e)
          case Ok(data) => DecodeCut(data.from, total + size, body + data.data, max, ending)
  }

  lemma SearchLine(src: Source, ending: Error)
    requires src.Ready() && IsEnding(ending)
    ensures var r := Search(src, CRLF, LINE_LIMIT, ending);
            && Searched(src.Unread(), CRLF, LINE_LIMIT, ending, Data(r))
            && (r.Ok? ==> src.Unread() == r.value.data + r.value.from.Unread() && r.value.from.Ready())
  {
    SearchIs(src, CRLF, LINE_LIMIT, ending);
  }

  /** The data of one chunk and the line end after it. */
  function TakeData(src: Source, size: int, ending: Error): (r: Result<Got>)
    requires src.Ready()
    ensures r.Ok? ==> r.value.from.Ready() && |src.Unread()| == |r.value.data| + 2 + |r.value.from.Unread()|
  {
    TakeIs(src, size, ending);
    match TakeFrom(src, size, ending)
    case Err(e) => Err(e)
    case Ok(data) =>
      TakeIs(data.from, 2, ending);
      match TakeFrom(data.from, 2, ending)
      case Err(e) => Err(e)
      case Ok(crlf) => if crlf.data != CRLF then Err(Http(400)) else Ok(Got(data.data, crlf.from))
  }

  // ---- where the pieces do not matter ------------------------------------------------------

  /** The step that the whole-stream decoder sees, once the line has been cut off. */
  lemma StepWithLine(s: bytes, line: bytes, t: bytes, total: int, max: nat, ending: Error)
    requires s == line + t && |line| == Find(s, CRLF) + 2 >= 2
    ensures SyncStep(s, total, max, ending) ==
      if |line| > LINE_LIMIT + RECV then Stop(Http(431))
      else if |line| > LINE_LIMIT + 1 then Cut
      else
        match SizeOf(line)
        case None => Stop(Http(400))
        case Some(size) =>
          if size == 0 then LineStep(t, ending)
          else if total + size > max then Stop(Http(413))
          else if size < 0 then SkipChunk(t, size, ending)
          else TakeChunk(t, size, ending)
  {
    assert s[..Find(s, CRLF)] == line[..|line| - 2] && s[Find(s, CRLF) + 2..] == t;
  }

  lemma LineStepIs(src: Source, ending: Error)
    requires src.Ready() && IsEnding(ending)
    ensures var r, step := Search(src, CRLF, LINE_LIMIT, ending), LineStep(src.Unread(), ending);
            match r
            case Err(e) => step == Cut || step == Stop(e)
            case Ok(line) => step == Cut || step == End(line.from.Unread())
  {
    hide Find, Search;
    SearchLine(src, ending);
  }

  /** A chunk's data on the pieces and on the stream. */
  lemma TakeDataIs(src: Source, size: int, ending: Error)
    requires src.Ready() && size != 0
    ensures var t, r := src.Unread(), TakeData(src, size, ending);
            var step := if size < 0 then SkipChunk(t, size, ending) else TakeChunk(t, size, ending);
            match r
            case Err(e) => step == Cut || step == Stop(e)
            case Ok(got) =>
              if size > 0 then step == Chunk(got.data, got.from.Unread())
              else step == Cut || (got.data == [] && step == Skip(size, got.from.Unread()))
  {
    hide TakeFrom;
    var t := src.Unread();
    TakeIs(src, size, ending);
    var data := TakeFrom(src, size, ending);
    if data.Ok? {
      var x := data.value;
      TakeIs(x.from, 2, ending);
      if size < 0 && MostHeld(t) + size <= 0 {
        assert SliceEnd(src.buffer, size) == 0;
        assert x.from.Unread() == t;
      }
      var e := |x.data|;
      if e + 2 <= |t| {
        assert x.from.Unread() == t[e..];
        TwoMore(t, e);
      }
    }
  }

  lemma TwoMore(t: bytes, e: nat)
    requires e + 2 <= |t|
    ensures t[e..][..2] == t[e..e + 2] && t[e..][2..] == t[e + 2..]
  {
  }

  /** Wherever the whole-stream decoder knows the answer, it is the answer for every way of cutting the stream,
      and what follows the body stays unread. */
  lemma {:induction false} CutDecodes(src: Source, total: int, body: bytes, max: nat, ending: Error)
    requires src.Ready() && IsEnding(ending)
    ensures match Decode(src.Unread(), total, body, max, ending)
            case Decoded(b, t, rest) =>
              var r := DecodeCut(src, total, body, max, ending);
              r.Ok? && r.value.body == b && r.value.total == t && r.value.from.Unread() == rest
            case Failed(e) => DecodeCut(src, total, body, max, ending) == Err(e)
            case CutDependent => true
    decreases |src.Unread()|
  {
    hide Search, Find, ParseSize, TakeData, SkipChunk, TakeChunk, LineStep, SyncStep, Source.Unread, Source.Ready;
    var s := src.Unread();
    SearchLine(src, ending);
    LineStepIs(src, ending);
    var line := Search(src, CRLF, LINE_LIMIT, ending);
    if line.Err? {
      NoLineStep(s, total, max, ending);
    } else {
      var next := line.value.from;
      StepWithLine(s, line.value.data, next.Unread(), total, max, ending);
      var size := SizeOf(line.value.data);
      if size == Some(0) {
        LineStepIs(next, ending);
      } else if size.Some? && total + size.value <= max {
        TakeDataIs(next, size.value, ending);
        var data := TakeData(next, size.value, ending);
        if data.Ok? {
          CutDecodes(data.value.from, total + size.value, body + data.value.data, max, ending);
          assert data.value.data == [] ==> body + data.value.data == body;
          TakenSize(next.Unread(), size.value, ending);
        }
      }
    }
  }

  lemma NoLineStep(s: bytes, total: int, max: nat, ending: Error)
    ensures !LineStep(s, ending).End? ==> SyncStep(s, total, max, ending) == LineStep(s, ending)
  {
  }

  lemma TakenSize(t: bytes, size: int, ending: Error)
    ensures size > 0 && TakeChunk(t, size, ending).Chunk? ==> |TakeChunk(t, size, ending).data| == size
  {
  }

  // ---- what negative sizes do --------------------------------------------------------------

  /** A negative size is read on the way to the end of the body. */
  ghost predicate TakesNegative(src: Source, total: int, max: nat, ending: Error)
    requires src.Ready() && IsEnding(ending)
    decreases |src.Unread()|
  {
    SearchLine(src, ending);
    var line := Search(src, CRLF, LINE_LIMIT, ending);
    line.Ok? &&
    var size := SizeOf(line.value.data);
    size.Some? && size.value != 0 && total + size.value <= max &&
    var data := TakeData(line.value.from, size.value, ending);
    data.Ok? && (size.value < 0 || TakesNegative(data.value.from, total + size.value, max, ending))
  }

  /** The size announced for an accepted body never exceeds the limit; it is the body's length if and only if no
      negative size was read, and otherwise less. */
  lemma {:induction false} SizeIsLength(src: Source, total: int, body: bytes, max: nat, ending: Error)
    requires src.Ready() && IsEnding(ending) && total <= max
    requires DecodeCut(src, total, body, max, ending).Ok?
    ensures var ch := DecodeCut(src, total, body, max, ending).value;
            && ch.total <= max && body <= ch.body
            && ch.total - total <= |ch.body| - |body|
            && (ch.total - total == |ch.body| - |body| <==> !TakesNegative(src, total, max, ending))
    decreases |src.Unread()|
  {
    hide Search, ParseSize, TakeData, Source.Unread, Source.Ready;
    SearchLine(src, ending);
    var line := Search(src, CRLF, LINE_LIMIT, ending).value;
    var size := SizeOf(line.data).value;
    if size == 0 {
    } else {
      var data := TakeData(line.from, size, ending).value;
      TakenLength(line.from, size, ending);
      SizeIsLength(data.from, total + size, body + data.data, max, ending);
    }
  }

  lemma TakenLength(src: Source, size: int, ending: Error)
    requires src.Ready() && TakeData(src, size, ending).Ok?
    ensures size >= 0 ==> |TakeData(src, size, ending).value.data| == size
  {
    hide TakeFrom;
    TakeIs(src, size, ending);
  }

  /** For an accepted body as a whole: it has the announced size, and so keeps the limit, if no negative size was
      read; otherwise it is longer than announced. */
  lemma LimitKept(src: Source, max: nat, ending: Error)
    requires src.Ready() && IsEnding(ending) && DecodeCut(src, 0, [], max, ending).Ok?
    ensures var ch := DecodeCut(src, 0, [], max, ending).value;
            && (|ch.body| == ch.total <= max <==> !TakesNegative(src, 0, max, ending))
            && (TakesNegative(src, 0, max, ending) ==> ch.total < |ch.body|)
  {
    hide DecodeCut, TakesNegative;
    SizeIsLength(src, 0, [], max, ending);
  }

  /** One large negative chunk lets a well-formed body of up to `max + HexValue(size)` bytes in: for every such
      stream, however it is cut. */
  lemma LimitMissed(size: bytes, cs: seq<WireChunk>, last: bytes, ext: bytes, rest: bytes, max: nat, ending: Error)
    requires size != [] && AllHex(size) && HexValue(size) >= RECV - 1 && |size| + 3 <= LINE_LIMIT + 1
    requires (forall i :: 0 <= i < |cs| ==> WellFormed(cs[i])) && LastSizeLine(last, ext)
    ensures Decode("-" + size + CRLF + (CRLF + (Wire(cs, last, ext) + rest)), 0, [], max, ending)
         == if |Payload(cs)| - HexValue(size) > max then Failed(Http(413))
            else Decoded(Payload(cs), |Payload(cs)| - HexValue(size), rest)
  {
    hide WellFormed, LastSizeLine, SyncStep, HexValue, Wire, Payload;
    var n: int, u := HexValue(size), Wire(cs, last, ext) + rest;
    NegativeStep(size, u, max, ending);
    RoundTrip(cs, last, ext, rest, 0 - n, [], max, ending);
    assert [] + Payload(cs) == Payload(cs);
  }

  lemma NegativeStep(size: bytes, u: bytes, max: nat, ending: Error)
    requires size != [] && AllHex(size) && HexValue(size) >= RECV - 1 && |size| + 3 <= LINE_LIMIT + 1
    ensures SyncStep("-" + size + CRLF + (CRLF + u), 0, max, ending) == Skip(0 - HexValue(size), u)
  {
    hide ParseSize, Find, HexValue, AllHex;
    var line, t := "-" + size + CRLF, CRLF + u;
    NegativeLine(size, t);
    LenientSizes(size);
    assert line[..|line| - 2] == "-" + size;
    StepWithLine(line + t, line, t, 0, max, ending);
    assert t[0..2] == CRLF && t[2..] == u && t[..0] == [];
  }

  lemma NegativeLine(size: bytes, t: bytes)
    requires size != [] && AllHex(size)
    ensures Find("-" + size + CRLF + t, CRLF) == |size| + 1
    ensures Find("-" + size + "\r", CRLF) < 0
  {
    forall i | 0 <= i < |size|
      ensures size[i] != '\r' && size[i] != '\n'
    {
      assert DigitValue(size[i]) >= 0;
    }
    ClearWithoutHead("-" + size, CRLF);
    FindAfterClear("-" + size, CRLF, t);
    var x := "-" + size + "\r";
    forall j ensures !At(x, CRLF, j) {
      AtChar(x, CRLF, j, 1);
    }
  }

  // ---- two ways of cutting a negative chunk ------------------------------------------------

  /** The size line by itself, in single bytes, and then all that a buffer can hold of what follows it. */
  function Greedy(line: bytes, t: bytes): (pieces: seq<bytes>)
    ensures Cuts(pieces, line + "\n" + t)
  {
    var m := MostHeld(t);
    assert line + ("\n" + t[..m]) + t[m..] == line + "\n" + t by { assert t == t[..m] + t[m..]; }
    OnePieceAt(line, "\n" + t[..m], t[m..])
  }

  /** The same with nothing of what follows. */
  function Sparing(line: bytes, t: bytes): (pieces: seq<bytes>)
    ensures Cuts(pieces, line + "\n" + t)
  {
    OnePieceAt(line, "\n", t)
  }

  /** After the line the buffer is as full, or as empty, as it can be. */
  lemma AfterLine(line: bytes, t: bytes, ending: Error)
    requires 0 < |line| <= LINE_LIMIT && Find(line, CRLF) < 0 && Find(line + "\n", CRLF) == |line| - 1
    ensures var m := MostHeld(t);
            && Search(Fresh(Greedy(line, t)), CRLF, LINE_LIMIT, ending)
               == Ok(Got(line + "\n", Source(t[..m], Singles(t[m..]))))
            && Search(Fresh(Sparing(line, t)), CRLF, LINE_LIMIT, ending) == Ok(Got(line + "\n", Source([], Singles(t))))
  {
    hide Find, Search, OnePieceAt;
    var m := MostHeld(t);
    var x := line + "\n";
    assert x[..|x|] == x && x[|x|..] == [];
    SearchInPiece(line, "\n", t, CRLF, LINE_LIMIT, ending);
    FindPrefix(x, t[..m], CRLF);
    var y := line + ("\n" + t[..m]);
    assert y == x + t[..m] && y[..|x|] == x && y[|x|..] == t[..m];
    SearchInPiece(line, "\n" + t[..m], t[m..], CRLF, LINE_LIMIT, ending);
  }

  /** The bytes that a negative size takes after its line. */
  function TakenAfter(pieces: seq<bytes>, size: int, ending: Error): Result<bytes> {
    match Search(Fresh(pieces), CRLF, LINE_LIMIT, ending)
    case Err(e) => Err(e)
    case Ok(line) => Data(TakeFrom(line.from, size, ending))
  }

  /** Two ways of cutting one stream can make a negative size take different bytes exactly when the buffer can
      hold more than its last `-size` bytes of what follows the line. */
  lemma NegativeTakeExactly(line: bytes, t: bytes, size: int, ending: Error)
    requires size < 0 && IsEnding(ending)
    requires 0 < |line| <= LINE_LIMIT && Find(line, CRLF) < 0 && Find(line + "\n", CRLF) == |line| - 1
    ensures MostHeld(t) + size > 0 <==>
            exists p, q :: Cuts(p, line + "\n" + t) && Cuts(q, line + "\n" + t) &&
              TakenAfter(p, size, ending) != TakenAfter(q, size, ending)
  {
    var s := line + "\n" + t;
    if MostHeld(t) + size > 0 {
      hide Find, Search, Cuts, Singles, OnePieceAt;
      AfterLine(line, t, ending);
      assert |TakenAfter(Greedy(line, t), size, ending).value| > 0;
      assert TakenAfter(Sparing(line, t), size, ending) == Ok([]);
      assert Cuts(Greedy(line, t), s) && Cuts(Sparing(line, t), s);
    } else {
      hide Find, TakenAfter, Cuts;
      forall p | Cuts(p, s)
        ensures TakenAfter(p, size, ending) == Ok([])
      {
        NothingTaken(p, line, t, size, ending);
      }
    }
  }

  lemma NothingTaken(pieces: seq<bytes>, line: bytes, t: bytes, size: int, ending: Error)
    requires size < 0 && MostHeld(t) + size <= 0 && IsEnding(ending)
    requires 0 < |line| <= LINE_LIMIT && Find(line + "\n", CRLF) == |line| - 1
    requires Cuts(pieces, line + "\n" + t)
    ensures TakenAfter(pieces, size, ending) == Ok([])
  {
    hide Find, Search, Cuts;
    var s := line + "\n" + t;
    FindPrefix(line + "\n", t, CRLF);
    FreshSearch(pieces, s, CRLF, LINE_LIMIT, ending);
    var from := Search(Fresh(pieces), CRLF, LINE_LIMIT, ending).value.from;
    assert |from.Unread()| == |t| && |from.buffer| <= |from.Unread()|;
    assert SliceEnd(from.buffer, size) == 0;
  }

  /** For every size from -(RECV - 2) to -1 the pieces decide what is received: of two ways of cutting one stream,
      one is accepted with an empty body, the other is not. */
  lemma NegativeSizesMatter(size: bytes, rest: bytes, max: nat, ending: Error)
    requires size != [] && AllHex(size) && 0 < HexValue(size) < RECV - 1 && |size| + 2 <= LINE_LIMIT
    requires HexValue(size) < |rest| + 7 && IsEnding(ending)
    ensures var line, t := "-" + size + "\r", CRLF + ("0" + CRLF + CRLF + rest);
            var p, q := Sparing(line, t), Greedy(line, t);
            && Cuts(p, line + "\n" + t) && Cuts(q, line + "\n" + t) && Fresh(p).Ready() && Fresh(q).Ready()
            && var accepted, other := DecodeCut(Fresh(p), 0, [], max, ending), DecodeCut(Fresh(q), 0, [], max, ending);
               && accepted.Ok? && accepted.value.body == [] && accepted.value.total == 0 - HexValue(size)
               && (other.Ok? ==> other.value.body != [])
  {
    hide Find, Search, ParseSize, HexValue, AllHex, Greedy, Sparing, Cuts, DecodeCut, Singles;
    var line, n := "-" + size + "\r", HexValue(size);
    var u := "0" + CRLF + CRLF + rest;
    var t := CRLF + u;
    NegativeLine(size, []);
    assert "-" + size + CRLF + [] == line + "\n";
    AfterLine(line, t, ending);
    FreshIs(Sparing(line, t), line + "\n" + t);
    FreshIs(Greedy(line, t), line + "\n" + t);
    LenientSizes(size);
    assert (line + "\n")[..|line| - 1] == "-" + size;
    SparingAccepted(line, u, n, max, ending);
    GreedyTakes(line, t, n, max, ending);
  }

  lemma SparingAccepted(line: bytes, u: bytes, n: nat, max: nat, ending: Error)
    requires n > 0 && SizeOf(line + "\n") == Some(0 - n) && IsEnding(ending)
    requires Fresh(Sparing(line, CRLF + u)).Ready() && |u| >= 5 && u == "0" + CRLF + CRLF + u[5..]
    requires Search(Fresh(Sparing(line, CRLF + u)), CRLF, LINE_LIMIT, ending)
          == Ok(Got(line + "\n", Source([], Singles(CRLF + u))))
    ensures var r := DecodeCut(Fresh(Sparing(line, CRLF + u)), 0, [], max, ending);
            r.Ok? && r.value.body == [] && r.value.total == 0 - n
  {
    hide Search, Sparing, ParseSize, Singles, Decode, DecodeCut, TakeFrom, TakeData;
    var t := CRLF + u;
    var from := Source([], Singles(t));
    FreshIs(Singles(t), t);
    LineEndOnly(from, u, n, ending);
    var data := TakeData(from, 0 - n, ending).value;
    DecodeStep(Fresh(Sparing(line, t)), Got(line + "\n", from), 0 - n, data, 0, [], max, ending);
    assert [] + data.data == [];
    LastChunk(u[5..], 0 - n, max, ending);
    CutDecodes(data.from, 0 - n, [], max, ending);
  }

  lemma DecodeStep(src: Source, line: Got, size: int, data: Got, total: int, body: bytes, max: nat, ending: Error)
    requires src.Ready() && IsEnding(ending) && Search(src, CRLF, LINE_LIMIT, ending) == Ok(line)
    requires SizeOf(line.data) == Some(size) && size != 0 && total + size <= max
    requires line.from.Ready() && TakeData(line.from, size, ending) == Ok(data)
    ensures data.from.Ready()
    ensures DecodeCut(src, total, body, max, ending)
         == DecodeCut(data.from, total + size, body + data.data, max, ending)
  {
    hide Search, ParseSize, TakeFrom;
  }

  /** An empty buffer gives nothing to a negative size. */
  lemma LineEndOnly(src: Source, u: bytes, n: nat, ending: Error)
    requires src.Ready() && src.buffer == [] && src.Unread() == CRLF + u && n > 0
    ensures var r := TakeData(src, 0 - n, ending);
            r.Ok? && r.value.data == [] && r.value.from.Ready() && r.value.from.Unread() == u
  {
    TakeIs(src, 0 - n, ending);
    var empty := TakeFrom(src, 0 - n, ending).value;
    hide TakeFrom;
    assert empty.data == [] && empty.from.Unread() == CRLF + u;
    TakeIs(empty.from, 2, ending);
    assert (CRLF + u)[..2] == CRLF && (CRLF + u)[2..] == u;
  }

  lemma LastChunk(rest: bytes, total: int, max: nat, ending: Error)
    requires total <= max
    ensures Decode("0" + CRLF + CRLF + rest, total, [], max, ending) == Decoded([], total, rest)
  {
    assert HexValue("0") == 0 by { assert "0"[..0] == ""; }
    RoundTrip([], "0", [], rest, total, [], max, ending);
    hide Decode;
    assert Wire([], "0", []) + rest == "0" + CRLF + CRLF + rest by { assert "0" + [] == "0"; }
    assert [] + Payload([]) == [];
  }

  lemma GreedyTakes(line: bytes, t: bytes, n: nat, max: nat, ending: Error)
    requires 0 < n < MostHeld(t) && SizeOf(line + "\n") == Some(0 - n) && IsEnding(ending)
    requires Fresh(Greedy(line, t)).Ready()
    requires Search(Fresh(Greedy(line, t)), CRLF, LINE_LIMIT, ending)
          == Ok(Got(line + "\n", Source(t[..MostHeld(t)], Singles(t[MostHeld(t)..]))))
    ensures var r := DecodeCut(Fresh(Greedy(line, t)), 0, [], max, ending); r.Ok? ==> r.value.body != []
  {
    hide Search, Greedy, ParseSize, Singles, DecodeCut, TakeData, TakesNegative;
    SearchLine(Fresh(Greedy(line, t)), ending);
    var from := Source(t[..MostHeld(t)], Singles(t[MostHeld(t)..]));
    var data := TakeData(from, 0 - n, ending);
    if data.Ok? {
      var x := data.value;
      FrontTaken(from, n, ending);
      DecodeStep(Fresh(Greedy(line, t)), Got(line + "\n", from), 0 - n, x, 0, [], max, ending);
      assert [] + x.data == x.data != [];
      if DecodeCut(x.from, 0 - n, x.data, max, ending).Ok? {
        SizeIsLength(x.from, 0 - n, x.data, max, ending);
      }
    } else {
      DecodeStops(Fresh(Greedy(line, t)), Got(line + "\n", from), 0 - n, 0, [], max, ending);
    }
  }

  lemma FrontTaken(src: Source, n: nat, ending: Error)
    requires src.Ready() && 0 < n < |src.buffer| && TakeData(src, 0 - n, ending).Ok?
    ensures TakeData(src, 0 - n, ending).value.data == src.buffer[..|src.buffer| - n]
  {
  }

  lemma DecodeStops(src: Source, line: Got, size: int, total: int, body: bytes, max: nat, ending: Error)
    requires src.Ready() && IsEnding(ending) && Search(src, CRLF, LINE_LIMIT, ending) == Ok(line)
    requires SizeOf(line.data) == Some(size) && size != 0 && total + size <= max
    requires line.from.Ready() && TakeData(line.from, size, ending).Err?
    ensures DecodeCut(src, total, body, max, ending).Err?
  {
    hide Search, ParseSize, TakeFrom;
  }
}
