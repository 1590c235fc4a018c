/** The multipart/form-data encoding (section 4 of RFC 7578) and its round trip through the parser. */
module MultipartRoundTrip {
  import opened Errors
  import opened Text
  import opened Multipart
  import opened UploadTypes
  import HeaderBlock
  import Utf8

  // ---- the encoding ------------------------------------------------------------------------

  function Quoted(text: bytes): bytes {
    "\"" + text + "\""
  }

  /** One parameter, as it stands after its semicolon. */
  function Param(key: bytes, text: bytes): bytes {
    " " + (key + "=" + Quoted(text))
  }

  /** `form-data; name="..."` and, for a file, `; filename="..."` */
  function NameParams(item: Item): bytes {
    var params := "form-data" + ";" + Param("name", item.name);
    if item.FieldItem? then params else params + ";" + Param("filename", item.filename)
  }

  function HeaderLine(name: bytes, value: bytes): bytes {
    name + ":" + (" " + value)
  }

  function PartLines(item: Item): (r: seq<bytes>)
    ensures |r| > 0
  {
    var first := HeaderLine("Content-Disposition", NameParams(item));
    if Untyped(item) then [first] else [first, HeaderLine("Content-Type", item.ctype)]
  }

  /** Fields, and files without a declared type, go without a `Content-Type` header. */
  predicate Untyped(item: Item) {
    item.FieldItem? || item.ctype == []
  }

  /** The type a file counts as: the declared one in lower case. */
  function Declared(ctype: bytes): bytes {
    if ctype == [] then "application/octet-stream" else Lower(ctype)
  }

  /** What stands between two delimiters. */
  function Segment(item: Item): bytes {
    CRLF + (Join(PartLines(item), CRLF) + BLANK + item.content) + CRLF
  }

  /** What follows the first delimiter: the parts, the closing delimiter and an epilogue. */
  function Tail(items: seq<Item>, sep: bytes, epilogue: bytes): bytes {
    if items == [] then "--" + CRLF + epilogue
    else Segment(items[0]) + sep + Tail(items[1..], sep, epilogue)
  }

  function Encode(preamble: bytes, items: seq<Item>, boundary: bytes, epilogue: bytes): bytes {
    preamble + ("--" + boundary) + Tail(items, "--" + boundary, epilogue)
  }

  predicate PlainName(s: bytes) {
    '"' !in s && ';' !in s && '\r' !in s && '\n' !in s
  }

  predicate PlainItem(item: Item) {
    PlainName(item.name) &&
    (item.FileItem? ==> PlainName(item.filename) && '\r' !in item.ctype && '\n' !in item.ctype && Trimmed(item.ctype))
  }

  /** The delimiter occurs in no header line and not in the content. */
  predicate Undelimited(item: Item, sep: bytes) {
    (forall i :: 0 <= i < |PartLines(item)| ==> Find(PartLines(item)[i], sep) < 0) && Find(item.content, sep) < 0
  }

  /** The item as the parser returns it. */
  function Parsed(item: Item): Item {
    match item
    case FieldItem(name, content) => item
    case FileItem(name, filename, ctype, content) => FileItem(name, filename, Declared(ctype), content)
  }

  // ---- one part reads back -----------------------------------------------------------------

  lemma FindFirst(a: bytes, c: char, b: bytes)
    requires c !in a
    ensures Find(a + [c] + b, [c]) == |a|
    ensures (a + [c] + b)[..|a|] == a && (a + [c] + b)[|a| + 1..] == b
  {
    ClearWithoutHead(a, [c]);
    FindAfterClear(a, [c], b);
  }

  lemma ParamReads(key: bytes, text: bytes, pieces: seq<bytes>, params: map<bytes, bytes>)
    requires key != [] && '=' !in key && Trimmed(key) && Lower(key) == key
    requires PlainName(text)
    ensures ParamsOf([Param(key, text)] + pieces, params) == ParamsOf(pieces, params[key := text])
  {
    hide Unquote, Lower, Trim, Quoted, Find;
    var q := Quoted(text);
    var p := key + "=" + q;
    QuotedTrimmed(text);
    assert Trimmed(p);
    TrimSpaced(p);
    FindFirst(key, '=', q);
    TrimSpaced(key);
    TrimSpaced(q);
    UnquoteQuoted(text);
    assert ([Param(key, text)] + pieces)[1..] == pieces;
  }

  lemma QuotedTrimmed(text: bytes)
    ensures Quoted(text) != [] && Trimmed(Quoted(text)) && !IsStrSpace(Quoted(text)[|Quoted(text)| - 1])
  {
  }

  lemma UnquoteQuoted(text: bytes)
    requires '"' !in text
    ensures Unquote(Quoted(text)) == text
  {
    var t := text + "\"";
    assert Quoted(text)[1..] == t && t[..|text|] == text;
    if text == [] {
      assert t == "\"" && t[1..] == [];
    } else {
      assert text[0] in text && text[|text| - 1] in text;
      assert t[0] == text[0] && t[|t| - 1] == '"';
      assert Unquote(text) == text;
      assert Unquote(t) == Unquote(text);
    }
  }

  lemma ParamKeys()
    ensures Trimmed("name") && Lower("name") == "name" && '=' !in "name"
    ensures Trimmed("filename") && Lower("filename") == "filename" && '=' !in "filename"
  {
  }

  lemma ParamPlain(key: bytes, text: bytes)
    requires ';' !in key && ';' !in text
    ensures ';' !in Param(key, text)
  {
    NotInConcat(';', "\"", text);
    NotInConcat(';', "\"" + text, "\"");
    NotInConcat(';', key, "=");
    NotInConcat(';', key + "=", Quoted(text));
    NotInConcat(';', " ", key + "=" + Quoted(text));
  }

  lemma FormDataKind()
    ensures Lower(Trim("form-data")) == "form-data" && ';' !in "form-data"
  {
    TrimSpaced("form-data");
    LowerIs("form-data");
    hide Trim, Lower;
  }

  function ParamMap(item: Item): map<bytes, bytes> {
    match item
    case FieldItem(name, _) => map["name" := name]
    case FileItem(name, filename, _, _) => map["name" := name]["filename" := filename]
  }

  lemma DispositionReads(item: Item)
    requires PlainItem(item)
    ensures Disposition(NameParams(item)) == ("form-data", ParamMap(item))
  {
    hide ParamsOf, Trim, Lower, Param, Trimmed;
    FormDataKind();
    ParamKeys();
    var p1 := Param("name", item.name);
    ParamPlain("name", item.name);
    match item
    case FieldItem(name, _) =>
      JoinTwo("form-data", p1);
      SplitJoin(["form-data", p1], ";");
      assert ["form-data", p1][1..] == [p1] + [];
      ParamReads("name", name, [], map[]);
      NoParams(map["name" := name]);
    case FileItem(name, filename, _, _) =>
      var p2 := Param("filename", filename);
      ParamPlain("filename", filename);
      JoinThree("form-data", p1, p2);
      SplitJoin(["form-data", p1, p2], ";");
      assert ["form-data", p1, p2][1..] == [p1] + [p2] && [p2] == [p2] + [];
      ParamReads("name", name, [p2], map[]);
      ParamReads("filename", filename, [], map["name" := name]);
      NoParams(map["name" := name]["filename" := filename]);
  }

  lemma NoParams(params: map<bytes, bytes>)
    ensures ParamsOf([], params) == params
  {
  }

  lemma JoinTwo(a: bytes, b: bytes)
    ensures Join([a, b], ";") == a + ";" + b
  {
    assert [a, b][1..] == [b];
  }

  lemma JoinThree(a: bytes, b: bytes, c: bytes)
    ensures Join([a, b, c], ";") == a + ";" + b + ";" + c
  {
    assert [a, b, c][1..] == [b, c];
    JoinTwo(b, c);
  }

  /** One header line adds one header. */
  lemma HeaderLineReads(name: bytes, key: bytes, value: bytes, lines: seq<bytes>, headers: map<bytes, bytes>)
    requires name != [] && ':' !in name && '\r' !in name && '\n' !in name && Trimmed(name) && Lower(name) == key
    requires '\r' !in value && '\n' !in value && Trimmed(value)
    ensures HeadersOf([HeaderLine(name, value)] + lines, headers) == HeadersOf(lines, headers[key := value])
    ensures HeaderLine(name, value) != [] && '\r' !in HeaderLine(name, value) && '\n' !in HeaderLine(name, value)
  {
    hide Lower, Trim, Find;
    FindFirst(name, ':', " " + value);
    TrimSpaced(name);
    TrimSpaced(value);
    assert ([HeaderLine(name, value)] + lines)[1..] == lines;
  }

  lemma HeaderNames()
    ensures ':' !in "Content-Disposition" && '\r' !in "Content-Disposition" && '\n' !in "Content-Disposition"
    ensures ':' !in "Content-Type" && '\r' !in "Content-Type" && '\n' !in "Content-Type"
    ensures Trimmed("Content-Disposition") && Trimmed("Content-Type")
  {
  }

  lemma HeaderNamesLower()
    ensures Lower("Content-Disposition") == "content-disposition"
    ensures Lower("Content-Type") == "content-type"
  {
  }

  function HeaderMap(item: Item): map<bytes, bytes> {
    var m := map["content-disposition" := NameParams(item)];
    if Untyped(item) then m else m["content-type" := item.ctype]
  }

  predicate OneLine(s: bytes) {
    '\r' !in s && '\n' !in s
  }

  lemma ParamOneLine(key: bytes, text: bytes)
    requires OneLine(key) && OneLine(text)
    ensures OneLine(Param(key, text)) && Param(key, text) != [] && Param(key, text)[|Param(key, text)| - 1] == '"'
  {
  }

  lemma NameParamsPlain(item: Item)
    requires PlainItem(item)
    ensures var v := NameParams(item); '\r' !in v && '\n' !in v && Trimmed(v)
  {
    hide Param;
    assert OneLine("name") && OneLine("filename") && OneLine("form-data") && OneLine(";");
    ParamOneLine("name", item.name);
    var params := "form-data" + ";" + Param("name", item.name);
    assert OneLine(params) && params[0] == 'f';
    if item.FileItem? {
      ParamOneLine("filename", item.filename);
      assert OneLine(params + ";" + Param("filename", item.filename));
    }
  }

  lemma PartHeadersRead(item: Item)
    requires PlainItem(item)
    ensures HeadersOf(PartLines(item), map[]) == Ok(HeaderMap(item))
    ensures forall i :: 0 <= i < |PartLines(item)| ==>
              PartLines(item)[i] != [] && '\r' !in PartLines(item)[i] && '\n' !in PartLines(item)[i]
  {
    hide HeadersOf, NameParams, HeaderLine, Lower, Trimmed;
    HeaderNames();
    HeaderNamesLower();
    NameParamsPlain(item);
    var v := NameParams(item);
    var cd, ct := "Content-Disposition", "Content-Type";
    var first := HeaderLine(cd, v);
    if Untyped(item) {
      assert PartLines(item) == [first] + [];
      HeaderLineReads(cd, "content-disposition", v, [], map[]);
      NoHeaders(HeaderMap(item));
    } else {
      var second := HeaderLine(ct, item.ctype);
      assert PartLines(item) == [first] + [second] && [second] == [second] + [];
      HeaderLineReads(cd, "content-disposition", v, [second], map[]);
      HeaderLineReads(ct, "content-type", item.ctype, [], map["content-disposition" := v]);
      NoHeaders(HeaderMap(item));
    }
  }

  lemma NoHeaders(headers: map<bytes, bytes>)
    ensures HeadersOf([], headers) == Ok(headers)
  {
  }

  lemma TrimmedSegment(item: Item)
    ensures Unwrapped(Segment(item)) == Join(PartLines(item), CRLF) + BLANK + item.content
  {
    hide Join, PartLines;
    var p := Join(PartLines(item), CRLF) + BLANK + item.content;
    assert Segment(item)[..2] == CRLF && Segment(item)[2..] == p + CRLF;
    assert (p + CRLF)[|p|..] == CRLF && (p + CRLF)[..|p|] == p;
  }

  lemma PartReads(item: Item)
    requires PlainItem(item)
    ensures Unwrapped(Segment(item)) != []
    ensures ReadPart(Unwrapped(Segment(item))) == Ok(Parsed(item))
  {
    hide HeadersOf, PartLines, Disposition, Lower, Segment, Unwrapped, Join, NameParams;
    TrimmedSegment(item);
    PartHeadersRead(item);
    HeaderBlock.NoEarlyBlank(PartLines(item));
    var block := Join(PartLines(item), CRLF);
    FindAfterClear(block, BLANK, item.content);
    var part := block + BLANK + item.content;
    assert part[..|block|] == block && part[|block| + 4..] == item.content;
    SplitJoin(PartLines(item), CRLF);
    DispositionReads(item);
    DefaultType();
  }

  lemma DefaultType()
    ensures Lower("application/octet-stream") == "application/octet-stream"
  {
    LowerIs("application/octet-stream");
  }

  // ---- the delimiter -----------------------------------------------------------------------

  lemma AtLeft(a: bytes, t: bytes, m: bytes, j: int)
    requires j + |m| <= |a|
    ensures At(a + t, m, j) ==> At(a, m, j)
  {
    if 0 <= j { assert (a + t)[j..j + |m|] == a[j..j + |m|]; }
  }

  lemma AtRight(t: bytes, b: bytes, m: bytes, j: int)
    requires j >= |t|
    ensures At(t + b, m, j) ==> At(b, m, j - |t|)
  {
    if j + |m| <= |t + b| { assert (t + b)[j..j + |m|] == b[j - |t|..j - |t| + |m|]; }
  }

  /** Text free of the marker on both sides of characters foreign to it is free of it. */
  lemma NoneAcross(a: bytes, c: bytes, b: bytes, m: bytes)
    requires m != [] && Find(a, m) < 0 && Find(b, m) < 0
    requires c != [] && forall i :: 0 <= i < |c| ==> c[i] !in m
    ensures Find(a + c + b, m) < 0
  {
    var s := a + c + b;
    forall j ensures !At(s, m, j) {
      if j + |m| <= |a| {
        assert s == a + (c + b) && !At(a, m, j);
        AtLeft(a, c + b, m, j);
      } else if j >= |a| + |c| {
        assert !At(b, m, j - |a + c|);
        AtRight(a + c, b, m, j);
      } else {
        var k := if j <= |a| then |a| else j;
        assert s[k] == c[k - |a|] && c[k - |a|] !in m;
        AtChar(s, m, j, k - j);
      }
    }
  }

  lemma {:induction false} NoneInJoin(lines: seq<bytes>, m: bytes)
    requires |lines| > 0 && m != [] && '\r' !in m && '\n' !in m
    requires forall i :: 0 <= i < |lines| ==> Find(lines[i], m) < 0
    ensures Find(Join(lines, CRLF), m) < 0
  {
    hide Find;
    if |lines| > 1 {
      NoneInJoin(lines[1..], m);
      NoneAcross(lines[0], CRLF, Join(lines[1..], CRLF), m);
    }
  }

  lemma SegmentClear(item: Item, sep: bytes)
    requires sep != [] && '\r' !in sep && '\n' !in sep
    requires Undelimited(item, sep)
    ensures Clear(Segment(item), sep)
  {
    hide Find, Join, PartLines;
    var block := Join(PartLines(item), CRLF);
    NoneInJoin(PartLines(item), sep);
    NoneAcross(block, BLANK, item.content, sep);
    WrappedClear(block + BLANK + item.content, sep);
  }

  lemma WrappedClear(p: bytes, sep: bytes)
    requires sep != [] && '\r' !in sep && '\n' !in sep && Find(p, sep) < 0
    ensures Clear(CRLF + p + CRLF, sep)
  {
    hide Find;
    FindEmpty(sep);
    NoneAcross([], CRLF, p, sep);
    assert [] + CRLF + p == CRLF + p;
    NoneAcross(CRLF + p, CRLF, [], sep);
    var s := CRLF + p + CRLF;
    assert s + [] == s;
    assert s[|s| - 1] == '\n';
    ClearByLast(s, sep);
  }

  lemma FindEmpty(m: bytes)
    requires m != []
    ensures Find([], m) < 0
  {
  }

  /** After the closing delimiter the next piece starts with "--". */
  lemma ClosingPiece(boundary: bytes, epilogue: bytes)
    requires boundary != [] && '\r' !in boundary
    ensures StartsWith(Split("--" + CRLF + epilogue, "--" + boundary)[0], "--")
  {
    var s, sep := "--" + CRLF + epilogue, "--" + boundary;
    AtChar(s, sep, 0, 2);
    AtChar(s, sep, 1, 1);
    var k := Find(s, sep);
    if k >= 0 { assert k >= 2; }
  }

  // ---- the whole form ----------------------------------------------------------------------

  /** The fields of a list of parts, decoded; a later part of the same name wins. */
  function FieldsOf(items: seq<Item>): map<bytes, string> {
    if items == [] then map[]
    else
      (match items[0]
       case FieldItem(name, content) => map[name := Utf8.Decode(content)]
       case FileItem(_, _, _, _) => map[])
      + FieldsOf(items[1..])
  }

  /** The files, each with the type it shows. */
  ghost function FilesOf(items: seq<Item>): map<bytes, Upload> {
    if items == [] then map[]
    else
      (match items[0]
       case FileItem(name, filename, ctype, content) =>
         map[name := Upload(name, filename, Declared(ctype), content, Shown(content))]
       case FieldItem(_, _) => map[])
      + FilesOf(items[1..])
  }

  function FileCount(items: seq<Item>): nat {
    if items == [] then 0 else (if items[0].FileItem? then 1 else 0) + FileCount(items[1..])
  }

  ghost predicate Encodable(items: seq<Item>, sep: bytes, l: Limits) {
    forall i :: 0 <= i < |items| ==>
      PlainItem(items[i]) && Undelimited(items[i], sep) &&
      (items[i].FileItem? ==> Welcome(Declared(items[i].ctype), items[i].content, l))
  }

  /** The parser's state after one more part. */
  ghost function Deposit(st: Progress, item: Item): Progress {
    match item
    case FieldItem(name, content) =>
      Progress(st.form.(fields := st.form.fields[name := Utf8.Decode(content)]), st.partCount + 1, st.fileCount)
    case FileItem(name, filename, ctype, content) =>
      var file := Upload(name, filename, Declared(ctype), content, Shown(content));
      Progress(st.form.(files := st.form.files[name := file]), st.partCount + 1, st.fileCount + 1)
  }

  lemma PartAdded(st: Progress, item: Item, l: Limits)
    requires PlainItem(item) && (item.FileItem? ==> Welcome(Declared(item.ctype), item.content, l))
    requires st.partCount < l.maxParts && (item.FileItem? ==> st.fileCount < l.maxFiles)
    ensures AddPart(st, Unwrapped(Segment(item)), l) == Ok(Deposit(st, item))
    ensures Unwrapped(Segment(item)) != [] && !StartsWith(Segment(item), "--")
  {
    hide Segment, Unwrapped, FileStatus, ReadPart, MakeUpload, Lower, PlainItem, Utf8.Decode, Shown, Welcome;
    PartReads(item);
    SegmentStart(item);
    if item.FileItem? {
      StatusExactly(Declared(item.ctype), item.content, l);
      UploadIs(item.name, item.filename, Declared(item.ctype), item.content);
    }
  }

  lemma DepositThenRest(st: Progress, item: Item, rest: seq<Item>)
    ensures var items := [item] + rest;
            && Deposit(st, item).form.fields + FieldsOf(rest) == st.form.fields + FieldsOf(items)
            && Deposit(st, item).form.files + FilesOf(rest) == st.form.files + FilesOf(items)
            && FileCount(items) == (if item.FileItem? then 1 else 0) + FileCount(rest)
  {
    hide Shown, Lower, Utf8.Decode;
    assert ([item] + rest)[1..] == rest;
    match item
    case FieldItem(name, content) =>
      MergeOne(st.form.fields, name, Utf8.Decode(content), FieldsOf(rest));
      assert map[] + FilesOf(rest) == FilesOf(rest);
    case FileItem(name, filename, ctype, content) =>
      MergeOne(st.form.files, name, Upload(name, filename, Declared(ctype), content, Shown(content)), FilesOf(rest));
      assert map[] + FieldsOf(rest) == FieldsOf(rest);
  }

  lemma MergeOne<V>(m: map<bytes, V>, k: bytes, v: V, more: map<bytes, V>)
    ensures m[k := v] + more == m + (map[k := v] + more)
  {
  }

  lemma {:induction false} PartsRoundTrip(st: Progress, items: seq<Item>, boundary: bytes, epilogue: bytes, l: Limits)
    requires boundary != [] && '\r' !in boundary && '\n' !in boundary
    requires Encodable(items, "--" + boundary, l)
    requires st.partCount + |items| <= l.maxParts && st.fileCount + FileCount(items) <= l.maxFiles
    ensures AddParts(st, Split(Tail(items, "--" + boundary, epilogue), "--" + boundary), l)
         == Ok(Form(st.form.fields + FieldsOf(items), st.form.files + FilesOf(items)))
    decreases |items|
  {
    hide Split, Segment, Undelimited, PlainItem, Welcome, AddPart, Unwrapped, FieldsOf, FilesOf, FileCount, Clear,
         Find, Lower;
    var sep := "--" + boundary;
    if items == [] {
      ClosingPiece(boundary, epilogue);
      NoItems(st);
    } else {
      var item, rest := items[0], items[1..];
      assert items == [item] + rest;
      SegmentClear(item, sep);
      SplitClear(Segment(item), sep, Tail(rest, sep, epilogue));
      PartAdded(st, item, l) by { DepositThenRest(st, item, rest); }
      DepositThenRest(st, item, rest);
      PartsRoundTrip(Deposit(st, item), rest, boundary, epilogue, l);
    }
  }

  lemma NoItems(st: Progress)
    ensures st.form.fields + FieldsOf([]) == st.form.fields && st.form.files + FilesOf([]) == st.form.files
  {
  }

  lemma SegmentStart(item: Item)
    ensures !StartsWith(Segment(item), "--")
  {
    assert Segment(item)[0] == '\r';
  }

  predicate PlainBoundary(b: bytes) {
    1 <= |b| <= 200 && forall i :: 0 <= i < |b| ==>
      b[i] as int < 128 && b[i] != '"' && b[i] != ';' && b[i] != '\r' && b[i] != '\n'
  }

  const FORM_DATA: bytes := "multipart/form-data; "

  lemma {:induction false} BoundaryFound(ctype: bytes, i: nat, k: nat)
    requires i <= k <= |ctype|
    requires BoundaryAt(ctype, k).Some? && forall j :: i <= j < k ==> ctype[j] != 'b'
    ensures SearchBoundary(ctype, i) == BoundaryAt(ctype, k)
    decreases k - i
  {
    if i < k {
      assert ctype[i..][0] == ctype[i];
      BoundaryFound(ctype, i + 1, k);
    }
  }

  lemma BareBoundary(before: bytes, b: bytes)
    requires PlainBoundary(b)
    ensures BoundaryAt(before + PARAM + b, |before|) == Some(b)
  {
    hide RunEnd;
    var ctype := before + PARAM + b;
    var k := |before| + |PARAM|;
    assert ctype[|before|..] == PARAM + b && (PARAM + b)[..|PARAM|] == PARAM;
    assert ctype[k..|ctype|] == b && ctype[k] == b[0];
    assert forall j :: k <= j < |ctype| ==> ctype[j] == b[j - k];
    RunEndIs(ctype, k, |ctype|);
  }

  lemma QuotedBoundary(before: bytes, b: bytes)
    requires PlainBoundary(b)
    ensures BoundaryAt(before + PARAM + Quoted(b), |before|) == Some(b)
  {
    hide RunEnd;
    var ctype := before + PARAM + Quoted(b);
    var k := |before| + |PARAM|;
    assert ctype[|before|..] == PARAM + Quoted(b) && (PARAM + Quoted(b))[..|PARAM|] == PARAM;
    assert ctype[k] == '"' && ctype[k + 1..k + 1 + |b|] == b && ctype[k + 1 + |b|] == '"';
    assert forall j :: k + 1 <= j < k + 1 + |b| ==> ctype[j] == b[j - k - 1];
    RunEndIs(ctype, k + 1, k + 1 + |b|);
  }

  /** The boundary is found in the header, quoted or not. */
  lemma BoundaryReads(b: bytes, quoted: bool)
    requires PlainBoundary(b)
    ensures Boundary(FORM_DATA + PARAM + (if quoted then Quoted(b) else b)) == Ok(b)
  {
    hide BoundaryAt, Quoted;
    var ctype := FORM_DATA + PARAM + (if quoted then Quoted(b) else b);
    if quoted { QuotedBoundary(FORM_DATA, b); } else { BareBoundary(FORM_DATA, b); }
    assert forall j :: 0 <= j < |FORM_DATA| ==> ctype[j] == FORM_DATA[j] != 'b';
    BoundaryFound(ctype, 0, |FORM_DATA|);
    assert ctype[0..|"multipart/form-data"|] == "multipart/form-data";
    assert At(ctype, "multipart/form-data", 0);
  }

  /** Every list of parts within the limits whose header lines and contents do not contain the delimiter
      comes back exactly: every field and file by name, the last of a name winning, whatever stands before
      the first and after the last delimiter. */
  lemma RoundTrip(preamble: bytes, items: seq<Item>, b: bytes, quoted: bool, epilogue: bytes, l: Limits)
    requires PlainBoundary(b) && Clear(preamble, "--" + b)
    requires Encodable(items, "--" + b, l)
    requires |items| <= l.maxParts && FileCount(items) <= l.maxFiles
    ensures ParseForm(FORM_DATA + PARAM + (if quoted then Quoted(b) else b), Encode(preamble, items, b, epilogue), l)
         == Ok(Form(FieldsOf(items), FilesOf(items)))
  {
    hide Boundary, Find, Split, Tail, Encodable, Clear, AddParts, FieldsOf, FilesOf, FileCount;
    var sep := "--" + b;
    BoundaryReads(b, quoted);
    FindAfterClear(preamble, sep, Tail(items, sep, epilogue));
    SplitClear(preamble, sep, Tail(items, sep, epilogue));
    PartsRoundTrip(EMPTY, items, b, epilogue, l);
    assert map[] + FieldsOf(items) == FieldsOf(items) && map[] + FilesOf(items) == FilesOf(items);
  }

  // ---- the first part that is not let in ---------------------------------------------------

  /** The part after `before` is refused, with this status: it is one too many, a file too many, too large a file,
      or one of a type that is not welcome. */
  ghost predicate NotLetIn(before: seq<Item>, item: Item, l: Limits, status: int) {
    if |before| == l.maxParts then status == 413
    else
      item.FileItem? &&
      if FileCount(before) == l.maxFiles || |item.content| > l.maxFileSize then status == 413
      else !Welcome(Declared(item.ctype), item.content, l) && status == 415
  }

  lemma PartRefused(st: Progress, item: Item, before: seq<Item>, l: Limits, status: int)
    requires PlainItem(item) && NotLetIn(before, item, l, status)
    requires st.partCount == |before| <= l.maxParts && st.fileCount == FileCount(before) <= l.maxFiles
    ensures AddPart(st, Unwrapped(Segment(item)), l) == Err(Http(status))
    ensures Unwrapped(Segment(item)) != [] && !StartsWith(Segment(item), "--")
  {
    hide Segment, Unwrapped, FileStatus, ReadPart, MakeUpload, Declared, PlainItem, Welcome, FileCount;
    PartReads(item);
    SegmentStart(item);
    if item.FileItem? {
      StatusExactly(Declared(item.ctype), item.content, l);
      if Welcome(Declared(item.ctype), item.content, l) {
        WelcomeFits(Declared(item.ctype), item.content, l);
      }
    }
  }

  lemma WelcomeFits(declared: bytes, content: bytes, l: Limits)
    requires Welcome(declared, content, l)
    ensures |content| <= l.maxFileSize
  {
    hide Shows;
  }

  lemma {:induction false} PartsRefused(st: Progress, before: seq<Item>, items: seq<Item>, k: nat, boundary: bytes,
                                        epilogue: bytes, l: Limits, status: int)
    requires boundary != [] && '\r' !in boundary && '\n' !in boundary
    requires k < |items| && Encodable(items[..k], "--" + boundary, l)
    requires |before| + k <= l.maxParts && FileCount(before) + FileCount(items[..k]) <= l.maxFiles
    requires PlainItem(items[k]) && Undelimited(items[k], "--" + boundary)
    requires NotLetIn(before + items[..k], items[k], l, status)
    requires st.partCount == |before| && st.fileCount == FileCount(before)
    ensures AddParts(st, Split(Tail(items, "--" + boundary, epilogue), "--" + boundary), l) == Err(Http(status))
    decreases k
  {
    hide Split, Segment, Undelimited, PlainItem, Welcome, AddPart, Unwrapped, Clear, Find, Declared, NotLetIn,
         FileCount;
    var sep := "--" + boundary;
    var item, rest := items[0], items[1..];
    if k == 0 {
      assert before + items[..0] == before;
      SegmentClear(item, sep);
      SplitClear(Segment(item), sep, Tail(rest, sep, epilogue));
      PartRefused(st, item, before, l, status);
    } else {
      assert items[..k][0] == item && rest[..k - 1] == items[..k][1..] && items[..k] == [item] + rest[..k - 1];
      assert before + items[..k] == before + [item] + rest[..k - 1];
      DepositThenRest(st, item, rest[..k - 1]);
      CountOneMore(before, item);
      SegmentClear(item, sep);
      SplitClear(Segment(item), sep, Tail(rest, sep, epilogue));
      PartAdded(st, item, l);
      PartsRefused(Deposit(st, item), before + [item], rest, k - 1, boundary, epilogue, l, status);
    }
  }

  lemma {:induction false} CountOneMore(before: seq<Item>, item: Item)
    ensures FileCount(before + [item]) == FileCount(before) + if item.FileItem? then 1 else 0
  {
    if before == [] {
      assert before + [item] == [item];
    } else {
      assert (before + [item])[1..] == before[1..] + [item];
      CountOneMore(before[1..], item);
    }
  }

  /** A form whose first parts are let in, and whose next is not, is refused with that part's status, whatever comes
      after it. In particular one with more than `maxParts` parts, or more than `maxFiles` files, is, with 413. */
  lemma FormRefused(preamble: bytes, items: seq<Item>, k: nat, b: bytes, quoted: bool, epilogue: bytes, l: Limits,
                    status: int)
    requires PlainBoundary(b) && Clear(preamble, "--" + b)
    requires k < |items| && Encodable(items[..k], "--" + b, l)
    requires k <= l.maxParts && FileCount(items[..k]) <= l.maxFiles
    requires PlainItem(items[k]) && Undelimited(items[k], "--" + b) && NotLetIn(items[..k], items[k], l, status)
    ensures ParseForm(FORM_DATA + PARAM + (if quoted then Quoted(b) else b), Encode(preamble, items, b, epilogue), l)
         == Err(Http(status))
  {
    hide Boundary, Find, Split, Tail, Encodable, Clear, AddParts, NotLetIn, PlainItem, Undelimited;
    var sep := "--" + b;
    BoundaryReads(b, quoted);
    FindAfterClear(preamble, sep, Tail(items, sep, epilogue));
    SplitClear(preamble, sep, Tail(items, sep, epilogue));
    assert [] + items[..k] == items[..k];
    PartsRefused(EMPTY, [], items, k, b, epilogue, l, status);
  }

  lemma TooManyParts(preamble: bytes, items: seq<Item>, b: bytes, quoted: bool, epilogue: bytes, l: Limits)
    requires PlainBoundary(b) && Clear(preamble, "--" + b)
    requires Encodable(items, "--" + b, l) && FileCount(items) <= l.maxFiles
    requires 0 <= l.maxParts < |items|
    ensures ParseForm(FORM_DATA + PARAM + (if quoted then Quoted(b) else b), Encode(preamble, items, b, epilogue), l)
         == Err(Http(413))
  {
    hide ParseForm, Encode, Encodable, Undelimited, PlainItem, Clear, PlainBoundary, FileCount;
    CountPrefix(items, l.maxParts);
    PartsOf(items, l.maxParts, "--" + b, l);
    FormRefused(preamble, items, l.maxParts, b, quoted, epilogue, l, 413);
  }

  lemma PartsOf(items: seq<Item>, k: nat, sep: bytes, l: Limits)
    requires k < |items| && Encodable(items, sep, l)
    ensures Encodable(items[..k], sep, l) && PlainItem(items[k]) && Undelimited(items[k], sep)
  {
    hide PlainItem, Undelimited, Welcome;
  }

  lemma {:induction false} CountPrefix(items: seq<Item>, k: nat)
    requires k <= |items|
    ensures FileCount(items[..k]) <= FileCount(items)
  {
    if k > 0 {
      assert items[..k][1..] == items[1..][..k - 1];
      CountPrefix(items[1..], k - 1);
    }
  }

  lemma TooManyFiles(preamble: bytes, items: seq<Item>, b: bytes, quoted: bool, epilogue: bytes, l: Limits)
    requires PlainBoundary(b) && Clear(preamble, "--" + b)
    requires Encodable(items, "--" + b, l) && |items| <= l.maxParts
    requires 0 <= l.maxFiles < FileCount(items)
    ensures ParseForm(FORM_DATA + PARAM + (if quoted then Quoted(b) else b), Encode(preamble, items, b, epilogue), l)
         == Err(Http(413))
  {
    hide ParseForm, Encode, Encodable, Undelimited, PlainItem, Clear, PlainBoundary, FileCount;
    var k := ReachesCount(items, l.maxFiles);
    PartsOf(items, k, "--" + b, l);
    FormRefused(preamble, items, k, b, quoted, epilogue, l, 413);
  }

  /** The file after `n` others. */
  lemma {:induction false} ReachesCount(items: seq<Item>, n: nat) returns (k: nat)
    requires n < FileCount(items)
    ensures k < |items| && items[k].FileItem? && FileCount(items[..k]) == n
  {
    if items[0].FileItem? && n == 0 {
      k := 0;
    } else {
      var j := ReachesCount(items[1..], if items[0].FileItem? then n - 1 else n);
      k := j + 1;
      assert items[..k][1..] == items[1..][..j];
    }
  }

  lemma {:induction false} LastFieldWins(items: seq<Item>, i: nat)
    requires i < |items| && items[i].FieldItem?
    requires forall j :: i < j < |items| && items[j].FieldItem? ==> items[j].name != items[i].name
    ensures items[i].name in FieldsOf(items) && FieldsOf(items)[items[i].name] == Utf8.Decode(items[i].content)
  {
    hide Utf8.Decode;
    if i > 0 {
      LastFieldWins(items[1..], i - 1);
    } else {
      NotAmong(items[1..], items[0].name);
    }
  }

  lemma {:induction false} NotAmong(items: seq<Item>, name: bytes)
    requires forall j :: 0 <= j < |items| && items[j].FieldItem? ==> items[j].name != name
    ensures name !in FieldsOf(items)
  {
    if items == [] {
    } else {
      NotAmong(items[1..], name);
    }
  }

  /** In particular every field that is a text, encoded: it comes back as that text. */
  lemma TextComesBack(items: seq<Item>, i: nat, text: string)
    requires i < |items| && items[i].FieldItem? && items[i].content == Utf8.Encode(text)
    requires forall j :: i < j < |items| && items[j].FieldItem? ==> items[j].name != items[i].name
    ensures items[i].name in FieldsOf(items) && FieldsOf(items)[items[i].name] == text
  {
    hide Utf8.Decode, Utf8.Encode, FieldsOf;
    LastFieldWins(items, i);
    Utf8.DecodeEncode(text);
  }

  // ---- when the delimiter does occur -------------------------------------------------------

  ghost predicate NoneHas(m: map<bytes, string>, sep: bytes) {
    forall k :: k in m ==> Find(m[k], sep) < 0
  }

  /** The content of an accepted part is cut out of the part. */
  lemma PartHasNone(seg: bytes, sep: bytes)
    requires Find(seg, sep) < 0 && ReadPart(Unwrapped(seg)).Ok?
    ensures Find(ReadPart(Unwrapped(seg)).value.content, sep) < 0
  {
    UnwrappedIsSlice(seg);
    hide Unwrapped, Find, ReadPart, StartsWith;
    var part := Unwrapped(seg);
    var i := if StartsWith(seg, CRLF) then 2 else 0;
    ContentIsSlice(part);
    var k := |part| - |ReadPart(part).value.content|;
    SliceOfSlice(seg, i, i + |part|, k, |part|);
    assert part[k..|part|] == part[k..];
    SliceHasNone(seg, sep, i + k, i + |part|);
  }

  lemma ContentIsSlice(part: bytes)
    requires ReadPart(part).Ok?
    ensures var content := ReadPart(part).value.content;
            |content| <= |part| && content == part[|part| - |content|..]
  {
    hide HeadersOf, Disposition, Split;
  }

  lemma UnwrappedIsSlice(seg: bytes)
    ensures var i, part := if StartsWith(seg, CRLF) then 2 else 0, Unwrapped(seg);
            i + |part| <= |seg| && part == seg[i..i + |part|]
  {
  }

  lemma {:induction false} FieldsHaveNone(st: Progress, segs: seq<bytes>, sep: bytes, l: Limits)
    requires sep != [] && Ascii(sep) && NoneHas(st.form.fields, sep)
    requires forall i :: 0 <= i < |segs| ==> Find(segs[i], sep) < 0
    ensures AddParts(st, segs, l).Ok? ==> NoneHas(AddParts(st, segs, l).value.fields, sep)
    decreases |segs|
  {
    hide ReadPart, Unwrapped, FileStatus, MakeUpload, StartsWith, Find, Utf8.Decode;
    if segs != [] && !StartsWith(segs[0], "--") {
      var part := Unwrapped(segs[0]);
      if part == [] {
        FieldsHaveNone(st, segs[1..], sep, l);
      } else if AddPart(st, part, l).Ok? {
        PartHasNone(segs[0], sep);
        Utf8.MarkersPass(ReadPart(part).value.content, [], sep);
        FieldsHaveNone(AddPart(st, part, l).value, segs[1..], sep, l);
      }
    }
  }

  /** Whatever the request says, no field of an accepted form contains the delimiter. */
  lemma NoFieldHasDelimiter(ctype: bytes, raw: bytes, l: Limits)
    requires Boundary(ctype).Ok? && Ascii(Boundary(ctype).value) && ParseForm(ctype, raw, l).Ok?
    ensures NoneHas(ParseForm(ctype, raw, l).value.fields, "--" + Boundary(ctype).value)
  {
    hide Boundary, Find, Split, AddParts;
    var sep := "--" + Boundary(ctype).value;
    PiecesHaveNone(raw, sep);
    FieldsHaveNone(EMPTY, Split(raw, sep)[1..], sep, l);
  }

  /** The form holds this one field, and encoding it gives the bytes that were sent. */
  predicate ComesBack(r: Result<Form>, name: bytes, content: bytes) {
    && r.Ok? && r.value.files == map[] && r.value.fields.Keys == {name}
    && Utf8.Encode(r.value.fields[name]) == content
  }

  /** For one field the format keeps its promise exactly when the content does not contain the delimiter - the
      parser looks for the bare `--boundary`, not for one at the start of a line - and, if the bytes themselves are
      to come back, is well-formed UTF-8. */
  lemma SingleFieldExact(name: bytes, content: bytes, b: bytes, l: Limits)
    requires PlainBoundary(b) && PlainName(name) && l.maxParts >= 1 && l.maxFiles >= 0
    requires Find(PartLines(FieldItem(name, content))[0], "--" + b) < 0
    ensures var r := ParseForm(FORM_DATA + PARAM + b, Encode([], [FieldItem(name, content)], b, []), l);
            && (r == Ok(Form(map[name := Utf8.Decode(content)], map[])) <==> Find(content, "--" + b) < 0)
            && (ComesBack(r, name, content) <==> Find(content, "--" + b) < 0 && Utf8.Valid(content))
  {
    hide Find, Boundary, Clear, ParseForm, HeaderLine, Utf8.Decode, Utf8.Encode, Utf8.Valid, Encode;
    var item, sep := FieldItem(name, content), "--" + b;
    var ctype, raw := FORM_DATA + PARAM + b, Encode([], [item], b, []);
    EmptyClear(sep);
    BoundaryReads(b, false);
    var r := ParseForm(ctype, raw, l);
    if r.Ok? {
      NoFieldHasDelimiter(ctype, raw, l);
      if name in r.value.fields {
        Utf8.MarkersPass(content, r.value.fields[name], sep);
      }
    }
    Utf8.MarkersPass(content, [], sep);
    assert map[name := Utf8.Decode(content)][name] == Utf8.Decode(content);
    Utf8.EncodeDecodeExactly(content);
    if Find(content, sep) < 0 {
      RoundTrip([], [item], b, false, [], l);
      OneField(name, content);
    }
  }

  lemma EmptyClear(m: bytes)
    ensures Clear([], m)
  {
  }

  lemma OneField(name: bytes, content: bytes)
    ensures FieldsOf([FieldItem(name, content)]) == map[name := Utf8.Decode(content)]
    ensures FilesOf([FieldItem(name, content)]) == map[] && FileCount([FieldItem(name, content)]) == 0
  {
    hide Utf8.Decode;
    assert [FieldItem(name, content)][1..] == [];
  }

  /** For instance the byte 0xFF, which comes back as the replacement character. */
  lemma InvalidByteIsReplaced(name: bytes, b: bytes, l: Limits)
    requires PlainBoundary(b) && PlainName(name) && l.maxParts >= 1 && l.maxFiles >= 0
    requires Find(PartLines(FieldItem(name, [0xFF as char]))[0], "--" + b) < 0
    ensures var content := [0xFF as char];
            var r := ParseForm(FORM_DATA + PARAM + b, Encode([], [FieldItem(name, content)], b, []), l);
            r == Ok(Form(map[name := [Utf8.REPLACEMENT]], map[])) && !ComesBack(r, name, content)
  {
    hide Find, ParseForm, Encode, PartLines, ComesBack;
    Utf8.InvalidByte();
    var content, sep := [0xFF as char], "--" + b;
    assert Find(content, sep) < 0 by { SplitSingle(content, sep); }
    SingleFieldExact(name, content, b, l);
  }
}
