/** Which parts of a form are read, and as what (sovereign/multipart.py:61-81, 130-142): equivalences about the lines
    of a part and the parameters of its disposition. */
module MultipartParts {
  import opened Errors
  import opened Text
  import opened Multipart

  // ---- header lines ------------------------------------------------------------------------

  predicate HeaderLineOk(line: bytes) {
    line == [] || ('\r' !in line && '\n' !in line && ':' in line)
  }

  /** The line gives this header: up to its first colon the name, behind it the value. */
  predicate GivesHeader(line: bytes, key: bytes, value: bytes) {
    line != [] && ':' in line && Lower(Trim(Before(line, ':'))) == key && Trim(Behind(line, ':')) == value
  }

  /** Up to the first `c`, or all of it. */
  function Before(s: bytes, c: char): bytes {
    if s == [] || s[0] == c then [] else [s[0]] + Before(s[1..], c)
  }

  /** Behind the first `c`, or nothing. */
  function Behind(s: bytes, c: char): bytes {
    if s == [] then [] else if s[0] == c then s[1..] else Behind(s[1..], c)
  }

  lemma {:induction false} CutAt(s: bytes, c: char)
    ensures Find(s, [c]) >= 0 <==> c in s
    ensures c in s ==> s[..Find(s, [c])] == Before(s, c) && s[Find(s, [c]) + 1..] == Behind(s, c)
  {
    if c in s {
      SplitOff(s, c);
      var a, b := Before(s, c), Behind(s, c);
      ClearWithoutHead(a, [c]);
      FindAfterClear(a, [c], b);
      assert s[..|a|] == a && s[|a| + 1..] == b;
    } else {
      SplitSingle(s, [c]);
    }
  }

  lemma {:induction false} SplitOff(s: bytes, c: char)
    requires c in s
    ensures c !in Before(s, c) && s == Before(s, c) + [c] + Behind(s, c)
  {
    if s[0] != c {
      SplitOff(s[1..], c);
      assert s == [s[0]] + s[1..];
    }
  }

  /** The last line that gives the header gives its value. */
  ghost predicate LastGives(lines: seq<bytes>, key: bytes, value: bytes) {
    exists i :: 0 <= i < |lines| && GivesHeader(lines[i], key, value) &&
      forall j, v :: i < j < |lines| ==> !GivesHeader(lines[j], key, v)
  }

  /** Header lines are read exactly if all of them are fine; a name then has the value its last line gives it. */
  lemma {:induction false} HeadersExactly(lines: seq<bytes>, headers: map<bytes, bytes>, key: bytes, value: bytes)
    ensures var r := HeadersOf(lines, headers);
            && (r.Ok? <==> forall i :: 0 <= i < |lines| ==> HeaderLineOk(lines[i]))
            && (r.Err? ==> r == Err(Http(400)))
            && (r.Ok? ==>
                (key in r.value && r.value[key] == value <==>
                 LastGives(lines, key, value) ||
                 ((forall i, v :: 0 <= i < |lines| ==> !GivesHeader(lines[i], key, v)) &&
                  key in headers && headers[key] == value)))
    decreases |lines|
  {
    hide HeaderLineOk, GivesHeader, LastGives;
    if lines == [] {
      NoneGives(key, value);
    } else {
      LineExactly(lines, headers, key, value);
      FirstLine(lines, key, value);
      if HeaderLineOk(lines[0]) {
        HeadersExactly(lines[1..], WithLine(lines[0], headers), key, value);
      }
      hide HeadersOf, WithLine;
    }
  }

  lemma NoneGives(key: bytes, value: bytes)
    ensures !LastGives([], key, value) && !LastParam([], key, value)
  {
  }

  /** The headers with one line more. */
  function WithLine(line: bytes, headers: map<bytes, bytes>): map<bytes, bytes> {
    if line == [] || ':' !in line then headers else headers[Lower(Trim(Before(line, ':'))) := Trim(Behind(line, ':'))]
  }

  lemma LineExactly(lines: seq<bytes>, headers: map<bytes, bytes>, key: bytes, value: bytes)
    requires lines != []
    ensures HeadersOf(lines, headers)
         == if HeaderLineOk(lines[0]) then HeadersOf(lines[1..], WithLine(lines[0], headers)) else Err(Http(400))
    ensures var next := WithLine(lines[0], headers);
            key in next && next[key] == value <==>
            GivesHeader(lines[0], key, value) ||
            ((forall v :: !GivesHeader(lines[0], key, v)) && key in headers && headers[key] == value)
  {
    LineRead(lines, headers);
    hide HeadersOf;
    LineGives(lines[0], headers, key, value);
  }

  lemma LineRead(lines: seq<bytes>, headers: map<bytes, bytes>)
    requires lines != []
    ensures HeadersOf(lines, headers)
         == if HeaderLineOk(lines[0]) then HeadersOf(lines[1..], WithLine(lines[0], headers)) else Err(Http(400))
  {
    CutAt(lines[0], ':');
    assert ":" == [':'];
    hide Find, Lower, Trim, Before, Behind;
  }

  lemma LineGives(line: bytes, headers: map<bytes, bytes>, key: bytes, value: bytes)
    ensures var next := WithLine(line, headers);
            key in next && next[key] == value <==>
            GivesHeader(line, key, value) ||
            ((forall v :: !GivesHeader(line, key, v)) && key in headers && headers[key] == value)
  {
    hide Lower, Trim, Before, Behind;
    if line != [] && ':' in line {
      var name, v := Lower(Trim(Before(line, ':'))), Trim(Behind(line, ':'));
      assert forall k, x :: GivesHeader(line, k, x) <==> k == name && x == v;
      assert GivesHeader(line, name, v);
    }
  }

  lemma FirstLine(lines: seq<bytes>, key: bytes, value: bytes)
    requires lines != []
    ensures (forall i :: 0 <= i < |lines| ==> HeaderLineOk(lines[i])) <==>
            HeaderLineOk(lines[0]) && forall i :: 0 <= i < |lines[1..]| ==> HeaderLineOk(lines[1..][i])
    ensures (forall i, v :: 0 <= i < |lines| ==> !GivesHeader(lines[i], key, v)) <==>
            && (forall v :: !GivesHeader(lines[0], key, v))
            && (forall i, v :: 0 <= i < |lines[1..]| ==> !GivesHeader(lines[1..][i], key, v))
    ensures LastGives(lines, key, value) <==>
            LastGives(lines[1..], key, value) ||
            (GivesHeader(lines[0], key, value) &&
             forall i, v :: 0 <= i < |lines[1..]| ==> !GivesHeader(lines[1..][i], key, v))
  {
    hide HeaderLineOk, GivesHeader;
    var rest := lines[1..];
    assert forall i :: 1 <= i < |lines| ==> lines[i] == rest[i - 1];
    assert forall i :: 0 <= i < |rest| ==> rest[i] == lines[i + 1];
    if LastGives(rest, key, value) {
      var i :| 0 <= i < |rest| && GivesHeader(rest[i], key, value) &&
               forall j, v :: i < j < |rest| ==> !GivesHeader(rest[j], key, v);
      assert GivesHeader(lines[i + 1], key, value);
    }
    if LastGives(lines, key, value) {
      var i :| 0 <= i < |lines| && GivesHeader(lines[i], key, value) &&
               forall j, v :: i < j < |lines| ==> !GivesHeader(lines[j], key, v);
      if i > 0 { assert GivesHeader(rest[i - 1], key, value); }
    }
  }

  // ---- parameters --------------------------------------------------------------------------

  /** The piece gives this parameter: up to its first equals sign the name, behind it the value without quotes. */
  predicate GivesParam(piece: bytes, key: bytes, value: bytes) {
    var p := Trim(piece);
    '=' in p && Lower(Trim(Before(p, '='))) == key && Unquote(Trim(Behind(p, '='))) == value
  }

  ghost predicate LastParam(pieces: seq<bytes>, key: bytes, value: bytes) {
    exists i :: 0 <= i < |pieces| && GivesParam(pieces[i], key, value) &&
      forall j, v :: i < j < |pieces| ==> !GivesParam(pieces[j], key, v)
  }

  lemma {:induction false} ParamsExactly(pieces: seq<bytes>, params: map<bytes, bytes>, key: bytes, value: bytes)
    ensures var r := ParamsOf(pieces, params);
            key in r && r[key] == value <==>
            LastParam(pieces, key, value) ||
            ((forall i, v :: 0 <= i < |pieces| ==> !GivesParam(pieces[i], key, v)) &&
             key in params && params[key] == value)
    decreases |pieces|
  {
    hide GivesParam, LastParam;
    if pieces == [] {
      NoneGives(key, value);
    } else {
      PieceExactly(pieces, params, key, value);
      FirstPiece(pieces, key, value);
      ParamsExactly(pieces[1..], WithPiece(pieces[0], params), key, value);
      hide ParamsOf, WithPiece;
    }
  }

  /** The parameters with one piece more. */
  function WithPiece(piece: bytes, params: map<bytes, bytes>): map<bytes, bytes> {
    var p := Trim(piece);
    if '=' !in p then params else params[Lower(Trim(Before(p, '='))) := Unquote(Trim(Behind(p, '=')))]
  }

  lemma PieceExactly(pieces: seq<bytes>, params: map<bytes, bytes>, key: bytes, value: bytes)
    requires pieces != []
    ensures ParamsOf(pieces, params) == ParamsOf(pieces[1..], WithPiece(pieces[0], params))
    ensures var next := WithPiece(pieces[0], params);
            key in next && next[key] == value <==>
            GivesParam(pieces[0], key, value) ||
            ((forall v :: !GivesParam(pieces[0], key, v)) && key in params && params[key] == value)
  {
    var p := Trim(pieces[0]);
    CutAt(p, '=');
    assert "=" == ['='];
    hide Find, Lower, Trim, Unquote, Before, Behind;
    if '=' in p {
      assert GivesParam(pieces[0], Lower(Trim(Before(p, '='))), Unquote(Trim(Behind(p, '='))));
    }
  }

  lemma FirstPiece(pieces: seq<bytes>, key: bytes, value: bytes)
    requires pieces != []
    ensures (forall i, v :: 0 <= i < |pieces| ==> !GivesParam(pieces[i], key, v)) <==>
            && (forall v :: !GivesParam(pieces[0], key, v))
            && (forall i, v :: 0 <= i < |pieces[1..]| ==> !GivesParam(pieces[1..][i], key, v))
    ensures LastParam(pieces, key, value) <==>
            LastParam(pieces[1..], key, value) ||
            (GivesParam(pieces[0], key, value) &&
             forall i, v :: 0 <= i < |pieces[1..]| ==> !GivesParam(pieces[1..][i], key, v))
  {
    hide GivesParam;
    var rest := pieces[1..];
    assert forall i :: 1 <= i < |pieces| ==> pieces[i] == rest[i - 1];
    assert forall i :: 0 <= i < |rest| ==> rest[i] == pieces[i + 1];
    if LastParam(rest, key, value) {
      var i :| 0 <= i < |rest| && GivesParam(rest[i], key, value) &&
               forall j, v :: i < j < |rest| ==> !GivesParam(rest[j], key, v);
      assert GivesParam(pieces[i + 1], key, value);
    }
    if LastParam(pieces, key, value) {
      var i :| 0 <= i < |pieces| && GivesParam(pieces[i], key, value) &&
               forall j, v :: i < j < |pieces| ==> !GivesParam(pieces[j], key, v);
      if i > 0 { assert GivesParam(rest[i - 1], key, value); }
    }
  }

  // ---- one part ----------------------------------------------------------------------------

  /** The disposition of a part is form data with this parameter. */
  ghost predicate FormData(disposition: bytes, key: bytes, value: bytes) {
    var pieces := Split(disposition, ";");
    Lower(Trim(pieces[0])) == "form-data" && LastParam(pieces[1..], key, value)
  }

  ghost predicate HeaderIs(lines: seq<bytes>, key: bytes, value: bytes, default: bytes) {
    LastGives(lines, key, value) ||
    ((forall i, v :: 0 <= i < |lines| ==> !GivesHeader(lines[i], key, v)) && value == default)
  }

  /** The part has these header lines, all of them fine, this disposition and, behind the blank line, this content. */
  ghost predicate PartIs(part: bytes, lines: seq<bytes>, disposition: bytes, content: bytes) {
    var k := Find(part, BLANK);
    && k >= 0 && lines == Split(part[..k], CRLF) && content == part[k + 4..]
    && (forall i :: 0 <= i < |lines| ==> HeaderLineOk(lines[i]))
    && HeaderIs(lines, "content-disposition", disposition, "")
  }

  lemma PartIsRead(part: bytes, lines: seq<bytes>, disposition: bytes, content: bytes)
    requires PartIs(part, lines, disposition, content)
    ensures HeadersOf(lines, map[]).Ok?
    ensures var headers := HeadersOf(lines, map[]).value;
            && Get(headers, "content-disposition", "") == disposition
            && ReadPart(part) == ReadItem(headers, Disposition(disposition), content)
  {
    hide Find, Split, HeadersOf, Disposition, HeaderLineOk, HeaderIs;
    HeadersExactly(lines, map[], "content-disposition", "");
    HeaderExactly(lines, "content-disposition", disposition, "");
  }

  function ReadItem(headers: map<bytes, bytes>, d: (bytes, map<bytes, bytes>), content: bytes): Result<Item> {
    if d.0 != "form-data" || "name" !in d.1 then Err(Http(400))
    else if "filename" !in d.1 then Ok(FieldItem(d.1["name"], content))
    else Ok(FileItem(d.1["name"], d.1["filename"], Lower(Get(headers, "content-type", "application/octet-stream")),
                     content))
  }

  lemma ReadPartIs(part: bytes) returns (lines: seq<bytes>, disposition: bytes, content: bytes)
    requires ReadPart(part).Ok?
    ensures PartIs(part, lines, disposition, content)
  {
    hide Find, Split, HeadersOf, Disposition, HeaderLineOk, HeaderIs;
    var k := Find(part, BLANK);
    lines, content := Split(part[..k], CRLF), part[k + 4..];
    disposition := Get(HeadersOf(lines, map[]).value, "content-disposition", "");
    HeadersExactly(lines, map[], "content-disposition", "");
    HeaderExactly(lines, "content-disposition", disposition, "");
  }

  /** A part is read as a field exactly if its disposition is form data with a name and without a file name. */
  lemma FieldExactly(part: bytes, name: bytes, content: bytes)
    ensures ReadPart(part) == Ok(FieldItem(name, content)) <==>
            exists lines, disposition ::
              PartIs(part, lines, disposition, content) && FormData(disposition, "name", name) &&
              forall f :: !FormData(disposition, "filename", f)
  {
    hide ReadPart, PartIs, FormData, HeadersOf, Disposition, Get;
    if ReadPart(part) == Ok(FieldItem(name, content)) {
      var lines, d, content' := ReadPartIs(part);
      PartIsRead(part, lines, d, content');
      DispositionExactly(d, "name", name);
      forall f ensures !FormData(d, "filename", f) {
        DispositionExactly(d, "filename", f);
      }
    }
    forall lines, d | PartIs(part, lines, d, content) && FormData(d, "name", name) &&
                      forall f :: !FormData(d, "filename", f)
      ensures ReadPart(part) == Ok(FieldItem(name, content))
    {
      PartIsRead(part, lines, d, content);
      DispositionExactly(d, "name", name);
      if "filename" in Disposition(d).1 { DispositionExactly(d, "filename", Disposition(d).1["filename"]); }
    }
  }

  /** It is read as a file exactly if there is a file name as well; the type is the declared one in lower case, or
      octets if none is. */
  lemma FileExactly(part: bytes, name: bytes, filename: bytes, ctype: bytes, content: bytes)
    ensures ReadPart(part) == Ok(FileItem(name, filename, ctype, content)) <==>
            exists lines, disposition, declared ::
              && PartIs(part, lines, disposition, content)
              && FormData(disposition, "name", name) && FormData(disposition, "filename", filename)
              && HeaderIs(lines, "content-type", declared, "application/octet-stream") && ctype == Lower(declared)
  {
    hide ReadPart, PartIs, FormData, HeadersOf, Disposition, Get, HeaderIs, Lower;
    if ReadPart(part) == Ok(FileItem(name, filename, ctype, content)) {
      var lines, d, content' := ReadPartIs(part);
      PartIsRead(part, lines, d, content');
      DispositionExactly(d, "name", name);
      DispositionExactly(d, "filename", filename);
      var declared := Get(HeadersOf(lines, map[]).value, "content-type", "application/octet-stream");
      HeaderExactly(lines, "content-type", declared, "application/octet-stream");
    }
    forall lines, d, declared | PartIs(part, lines, d, content) && FormData(d, "name", name) &&
        FormData(d, "filename", filename) && HeaderIs(lines, "content-type", declared, "application/octet-stream") &&
        ctype == Lower(declared)
      ensures ReadPart(part) == Ok(FileItem(name, filename, ctype, content))
    {
      PartIsRead(part, lines, d, content);
      DispositionExactly(d, "name", name);
      DispositionExactly(d, "filename", filename);
      HeaderExactly(lines, "content-type", declared, "application/octet-stream");
    }
  }

  /** Every other part is refused with 400. */
  lemma PartRefused(part: bytes)
    ensures ReadPart(part).Err? ==> ReadPart(part) == Err(Http(400))
  {
    hide Find, Split, Disposition, HeadersOf;
    var k := Find(part, BLANK);
    if k >= 0 { HeadersExactly(Split(part[..k], CRLF), map[], "", ""); }
  }

  lemma HeaderExactly(lines: seq<bytes>, key: bytes, value: bytes, default: bytes)
    requires HeadersOf(lines, map[]).Ok?
    ensures HeaderIs(lines, key, value, default) <==> Get(HeadersOf(lines, map[]).value, key, default) == value
  {
    hide HeadersOf, HeaderLineOk, GivesHeader;
    HeadersExactly(lines, map[], key, value);
    var r := HeadersOf(lines, map[]).value;
    if key in r { HeadersExactly(lines, map[], key, r[key]); }
    forall i, v | 0 <= i < |lines| && GivesHeader(lines[i], key, v)
      ensures key in r
    {
      var last := LastOne(lines, key, i, v);
      HeadersExactly(lines, map[], key, last);
    }
  }

  /** If some line gives the header, some line gives it last. */
  lemma {:induction false} LastOne(lines: seq<bytes>, key: bytes, i: nat, value: bytes) returns (last: bytes)
    requires i < |lines| && GivesHeader(lines[i], key, value)
    ensures LastGives(lines, key, last)
    decreases |lines| - i
  {
    hide GivesHeader;
    if j, v :| i < j < |lines| && GivesHeader(lines[j], key, v) {
      last := LastOne(lines, key, j, v);
    } else {
      last := value;
    }
  }

  lemma DispositionExactly(value: bytes, key: bytes, v: bytes)
    ensures FormData(value, key, v) <==>
            && Disposition(value).0 == "form-data" && key in Disposition(value).1 && Disposition(value).1[key] == v
  {
    hide Split, Lower, Trim, ParamsOf, LastParam, GivesParam;
    ParamsExactly(Split(value, ";")[1..], map[], key, v);
  }
}
