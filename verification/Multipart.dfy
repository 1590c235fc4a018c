/** `MultipartParser` of sovereign/multipart.py against the multipart/form-data format (section 4 of RFC 7578,
    section 5.1.1 of RFC 2046). */
module Multipart {
  import opened Errors
  import opened Text
  import HeaderBlock
  import Utf8

  const BLANK := HeaderBlock.BLANK

  datatype Limits = Limits(maxFiles: int, maxFileSize: int, maxParts: int, allowMismatch: bool)

  datatype Upload = Upload(name: bytes, filename: bytes, contentType: bytes, content: bytes, sniffed: Option<bytes>)

  /** Field contents are decoded, file contents are kept as bytes. */
  datatype Form = Form(fields: map<bytes, string>, files: map<bytes, Upload>)

  // ---- the boundary ------------------------------------------------------------------------

  /** End of the run of characters other than quote and semicolon that starts at `i`. */
  function RunEnd(s: bytes, i: nat): (e: nat)
    requires i <= |s|
    ensures i <= e <= |s|
    ensures forall j :: i <= j < e ==> s[j] != '"' && s[j] != ';'
    ensures e < |s| ==> s[e] == '"' || s[e] == ';'
    decreases |s| - i
  {
    if i < |s| && s[i] != '"' && s[i] != ';' then RunEnd(s, i + 1) else i
  }

  const PARAM: bytes := "boundary="

  /** A match of the pattern `boundary=("?)([^";]+)\1` at `i`: an opening quote needs its closing one. */
  function BoundaryAt(s: bytes, i: nat): Option<bytes>
    requires i <= |s|
  {
    if !StartsWith(s[i..], PARAM) then None
    else
      var k := i + |PARAM|;
      if k < |s| && s[k] == '"' then
        var e := RunEnd(s, k + 1);
        if e > k + 1 && e < |s| && s[e] == '"' then Some(s[k + 1..e]) else None
      else
        var e := RunEnd(s, k);
        if e > k then Some(s[k..e]) else None
  }

  /** The leftmost match at or after `i`. */
  function SearchBoundary(s: bytes, i: nat): Option<bytes>
    requires i <= |s|
    decreases |s| - i
  {
    if BoundaryAt(s, i).Some? then BoundaryAt(s, i)
    else if i == |s| then None
    else SearchBoundary(s, i + 1)
  }

  function Boundary(ctype: bytes): Result<bytes> {
    var b := SearchBoundary(ctype, 0);
    if Find(ctype, "multipart/form-data") < 0 || b == None then Err(Http(400))
    else if exists i :: 0 <= i < |b.value| && b.value[i] as int >= 128 then Err(Crash)
    else if |b.value| > 200 || '\r' in b.value || '\n' in b.value then Err(Http(400))
    else Ok(b.value)
  }

  /** A match of the pattern at `i`, with this boundary: unquoted up to a quote, a semicolon or the end, or between two
      quotes, but without quotes and semicolons inside. */
  predicate Matches(s: bytes, i: int, b: bytes) {
    && 0 <= i <= |s| - 9 && s[i..i + 9] == "boundary=" && b != [] && '"' !in b && ';' !in b
    && (|| (i + 9 + |b| <= |s| && s[i + 9..i + 9 + |b|] == b && (i + 9 + |b| == |s| || s[i + 9 + |b|] in "\";"))
        || (i + 11 + |b| <= |s| && s[i + 10..i + 10 + |b|] == b && s[i + 9] == s[i + 10 + |b|] == '"'))
  }

  lemma MatchesExactly(s: bytes, i: nat, b: bytes)
    requires i <= |s|
    ensures BoundaryAt(s, i) == Some(b) <==> Matches(s, i, b)
  {
    if i <= |s| - 9 { assert s[i..][..9] == s[i..i + 9]; }
    if BoundaryAt(s, i) == Some(b) {
      FoundMatches(s, i, b);
    }
    if Matches(s, i, b) {
      MatchFound(s, i, b);
    }
  }

  lemma FoundMatches(s: bytes, i: nat, b: bytes)
    requires i <= |s| && BoundaryAt(s, i) == Some(b)
    ensures Matches(s, i, b)
  {
    hide RunEnd;
    assert s[i..][..9] == s[i..i + 9];
    var k := if i + 9 < |s| && s[i + 9] == '"' then i + 10 else i + 9;
    var e := RunEnd(s, k);
    assert b == s[k..e] && forall j :: 0 <= j < |b| ==> b[j] == s[k + j];
  }

  lemma MatchFound(s: bytes, i: nat, b: bytes)
    requires i <= |s| && Matches(s, i, b)
    ensures BoundaryAt(s, i) == Some(b)
  {
    assert s[i..][..9] == s[i..i + 9];
    var k := if s[i + 9] == '"' then i + 10 else i + 9;
    assert s[i + 9..i + 9 + |b|] == b ==> s[i + 9] == b[0];
    assert s[k..k + |b|] == b && forall j :: k <= j < k + |b| ==> s[j] == b[j - k];
    RunEndIs(s, k, k + |b|);
    hide RunEnd;
  }

  lemma RunEndIs(s: bytes, i: nat, e: nat)
    requires i <= e <= |s|
    requires forall j :: i <= j < e ==> s[j] != '"' && s[j] != ';'
    requires e < |s| ==> s[e] == '"' || s[e] == ';'
    ensures RunEnd(s, i) == e
  {
  }

  /** The leftmost match. */
  ghost predicate Leftmost(s: bytes, b: bytes) {
    exists i :: Matches(s, i, b) && forall j, b' :: 0 <= j < i ==> !Matches(s, j, b')
  }

  lemma {:induction false} SearchExactly(s: bytes, i: nat, b: bytes)
    requires i <= |s|
    ensures SearchBoundary(s, i) == Some(b) <==>
            exists k :: i <= k && Matches(s, k, b) && forall j, b' :: i <= j < k ==> !Matches(s, j, b')
    decreases |s| - i
  {
    hide BoundaryAt, Matches;
    forall b' {
      MatchesExactly(s, i, b');
    }
    if BoundaryAt(s, i).Some? {
      assert Matches(s, i, BoundaryAt(s, i).value);
    } else {
      if i < |s| {
        SearchExactly(s, i + 1, b);
      }
      NoMatchAfter(s, b);
    }
  }

  lemma NoMatchAfter(s: bytes, b: bytes)
    ensures forall k :: k >= |s| ==> !Matches(s, k, b)
  {
  }

  /** The boundary is that of the leftmost match in a header for form data, of at most 200 bytes, and without line
      breaks. One that is not ASCII makes the parser raise, whatever else is wrong is refused with 400. */
  lemma BoundaryExactly(ctype: bytes, b: bytes)
    ensures Boundary(ctype) == Ok(b) <==>
            && Find(ctype, "multipart/form-data") >= 0 && Leftmost(ctype, b)
            && |b| <= 200 && Ascii(b) && '\r' !in b && '\n' !in b
    ensures Boundary(ctype) == Err(Crash) <==>
            Find(ctype, "multipart/form-data") >= 0 && exists b' :: Leftmost(ctype, b') && !Ascii(b')
    ensures Boundary(ctype).Err? ==> Boundary(ctype).error == Crash || Boundary(ctype).error == Http(400)
  {
    hide Find, SearchBoundary, Matches;
    forall b' ensures SearchBoundary(ctype, 0) == Some(b') <==> Leftmost(ctype, b') {
      SearchExactly(ctype, 0, b');
      NeverBefore(ctype);
    }
    var m := SearchBoundary(ctype, 0);
    if m.Some? { assert Leftmost(ctype, m.value); }
  }

  lemma NeverBefore(s: bytes)
    ensures forall k, b :: Matches(s, k, b) ==> 0 <= k
  {
  }

  // ---- part headers ------------------------------------------------------------------------

  function HeadersOf(lines: seq<bytes>, headers: map<bytes, bytes>): Result<map<bytes, bytes>>
    decreases |lines|
  {
    if lines == [] then Ok(headers)
    else
      var line := lines[0];
      if line == [] then HeadersOf(lines[1..], headers)
      else if '\r' in line || '\n' in line || Find(line, ":") < 0 then Err(Http(400))
      else
        var k := Find(line, ":");
        HeadersOf(lines[1..], headers[Lower(Trim(line[..k])) := Trim(line[k + 1..])])
  }

  method Headers(block: bytes) returns (r: Result<map<bytes, bytes>>)
    ensures r == HeadersOf(Split(block, CRLF), map[])
  {
    hide Trim, Lower, Split;
    var lines := Split(block, CRLF);
    var headers: map<bytes, bytes> := map[];
    for i := 0 to |lines|
      invariant HeadersOf(lines[i..], headers) == HeadersOf(lines, map[])
    {
      var line := lines[i];
      assert lines[i..][0] == line && lines[i..][1..] == lines[i + 1..];
      if line == [] {
        continue;
      }
      if '\r' in line || '\n' in line || Find(line, ":") < 0 {
        return Err(Http(400));
      }
      var k := Find(line, ":");
      headers := headers[Lower(Trim(line[..k])) := Trim(line[k + 1..])];
    }
    r := Ok(headers);
  }

  /** `s.strip('"')` */
  function Unquote(s: bytes): (r: bytes)
    ensures |r| <= |s|
  {
    if s != [] && s[0] == '"' then Unquote(s[1..])
    else if s != [] && s[|s| - 1] == '"' then Unquote(s[..|s| - 1])
    else s
  }

  function ParamsOf(pieces: seq<bytes>, params: map<bytes, bytes>): map<bytes, bytes>
    decreases |pieces|
  {
    if pieces == [] then params
    else
      var p := Trim(pieces[0]);
      var k := Find(p, "=");
      ParamsOf(pieces[1..], if k < 0 then params else params[Lower(Trim(p[..k])) := Unquote(Trim(p[k + 1..]))])
  }

  /** Kind and parameters of a Content-Disposition value. */
  function Disposition(value: bytes): (bytes, map<bytes, bytes>) {
    var pieces := Split(value, ";");
    (Lower(Trim(pieces[0])), ParamsOf(pieces[1..], map[]))
  }

  method ParseDisposition(value: bytes) returns (kind: bytes, params: map<bytes, bytes>)
    ensures (kind, params) == Disposition(value)
  {
    hide Trim, Lower, Unquote, Split;
    var pieces := Split(value, ";");
    kind := Lower(Trim(pieces[0]));
    params := map[];
    for i := 1 to |pieces|
      invariant ParamsOf(pieces[i..], params) == ParamsOf(pieces[1..], map[])
    {
      var p := Trim(pieces[i]);
      assert pieces[i..][0] == pieces[i] && pieces[i..][1..] == pieces[i + 1..];
      var k := Find(p, "=");
      if k >= 0 {
        params := params[Lower(Trim(p[..k])) := Unquote(Trim(p[k + 1..]))];
      }
    }
  }

  // ---- uploaded files ----------------------------------------------------------------------

  function Chars(codes: seq<int>): bytes
    requires forall i :: 0 <= i < |codes| ==> 0 <= codes[i] < 256
  {
    seq(|codes|, i requires 0 <= i < |codes| => codes[i] as char)
  }

  /** The magic-byte table of `sniff_mime`. */
  function Sniff(head: bytes): Option<bytes> {
    if StartsWith(head, Chars([0x89, 0x50, 0x4e, 0x47, 0x0d, 0x0a, 0x1a, 0x0a])) then Some("image/png")
    else if StartsWith(head, Chars([0xff, 0xd8, 0xff])) then Some("image/jpeg")
    else if StartsWith(head, "GIF87a") || StartsWith(head, "GIF89a") then Some("image/gif")
    else if StartsWith(head, "%PDF-") then Some("application/pdf")
    else if StartsWith(head, Chars([0x50, 0x4b, 0x03, 0x04])) then Some("application/zip")
    else if StartsWith(head, "MZ") then Some("application/vnd.microsoft.portable-executable")
    else if StartsWith(head, "#!") then Some("text/x-shellscript")
    else if StartsWith(head, "<?xml") || StartsWith(head, "<svg") then Some("application/xml")
    else None
  }

  /** Declared types that the content has to bear out. */
  predicate Checked(ctype: bytes) {
    StartsWith(ctype, "image/") || StartsWith(ctype, "application/pdf") || StartsWith(ctype, "application/zip")
  }

  /** 0 for a file that is kept, else the status of the refusal. */
  function FileStatus(ctype: bytes, content: bytes, l: Limits): int {
    var sniffed := Sniff(content[..if |content| < 8 then |content| else 8]);
    if |content| > l.maxFileSize then 413
    else if sniffed == Some("application/vnd.microsoft.portable-executable") then 415
    else if sniffed == Some("text/x-shellscript") then 415
    else if sniffed.Some? && sniffed.value != ctype && !l.allowMismatch && Checked(ctype) then 415
    else 0
  }

  function MakeUpload(name: bytes, filename: bytes, ctype: bytes, content: bytes): Upload {
    Upload(name, filename, ctype, content, Sniff(content[..if |content| < 8 then |content| else 8]))
  }

  // ---- the parts ---------------------------------------------------------------------------

  /** What one part contributes. */
  datatype Item =
    | FieldItem(name: bytes, content: bytes)
    | FileItem(name: bytes, filename: bytes, ctype: bytes, content: bytes)

  function Get(m: map<bytes, bytes>, key: bytes, default: bytes): bytes {
    if key in m then m[key] else default
  }

  /** Without the line break after the delimiter and the one before the next. */
  function Unwrapped(seg: bytes): bytes {
    var p := if StartsWith(seg, CRLF) then seg[2..] else seg;
    if EndsWith(p, CRLF) then p[..|p| - 2] else p
  }

  function ReadPart(part: bytes): Result<Item> {
    var k := Find(part, BLANK);
    if k < 0 then Err(Http(400))
    else
      match HeadersOf(Split(part[..k], CRLF), map[])
      case Err(e) => Err(e)
      case Ok(headers) =>
        var (kind, params) := Disposition(Get(headers, "content-disposition", ""));
        if kind != "form-data" || "name" !in params then Err(Http(400))
        else if "filename" !in params then Ok(FieldItem(params["name"], part[k + 4..]))
        else Ok(FileItem(params["name"], params["filename"],
                         Lower(Get(headers, "content-type", "application/octet-stream")), part[k + 4..]))
  }

  datatype Progress = Progress(form: Form, partCount: int, fileCount: int)

  function AddItem(st: Progress, item: Item, l: Limits): Result<Progress> {
    match item
    case FieldItem(name, content) =>
      Ok(st.(form := st.form.(fields := st.form.fields[name := Utf8.Decode(content)])))
    case FileItem(name, filename, ctype, content) =>
      if st.fileCount + 1 > l.maxFiles then Err(Http(413))
      else if FileStatus(ctype, content, l) != 0 then Err(Http(FileStatus(ctype, content, l)))
      else
        var files := st.form.files[name := MakeUpload(name, filename, ctype, content)];
        Ok(st.(form := st.form.(files := files), fileCount := st.fileCount + 1))
  }

  function AddPart(st: Progress, part: bytes, l: Limits): Result<Progress> {
    if st.partCount + 1 > l.maxParts then Err(Http(413))
    else match ReadPart(part)
         case Err(e) => Err(e)
         case Ok(item) => AddItem(st.(partCount := st.partCount + 1), item, l)
  }

  function AddParts(st: Progress, segs: seq<bytes>, l: Limits): Result<Form>
    decreases |segs|
  {
    if segs == [] || StartsWith(segs[0], "--") then Ok(st.form)
    else if Unwrapped(segs[0]) == [] then AddParts(st, segs[1..], l)
    else match AddPart(st, Unwrapped(segs[0]), l)
         case Err(e) => Err(e)
         case Ok(st') => AddParts(st', segs[1..], l)
  }

  const EMPTY := Progress(Form(map[], map[]), 0, 0)

  function ParseForm(ctype: bytes, raw: bytes, l: Limits): Result<Form> {
    match Boundary(ctype)
    case Err(e) => Err(e)
    case Ok(b) =>
      if Find(raw, "--" + b) < 0 then Err(Http(400)) else AddParts(EMPTY, Split(raw, "--" + b)[1..], l)
  }

  method Parse(ctype: bytes, raw: bytes, l: Limits) returns (r: Result<Form>)
    ensures r == ParseForm(ctype, raw, l)
  {
    hide Boundary, Find, Split, Disposition, Sniff, FileStatus, HeadersOf, Unwrapped, Utf8.Decode;
    var boundary := Boundary(ctype);
    if boundary.Err? {
      return Err(boundary.error);
    }
    var sep := "--" + boundary.value;
    if Find(raw, sep) < 0 {
      return Err(Http(400));
    }
    var segs := Split(raw, sep);
    var fields: map<bytes, string>, files: map<bytes, Upload> := map[], map[];
    var fileCount, partCount := 0, 0;
    for i := 1 to |segs|
      invariant AddParts(Progress(Form(fields, files), partCount, fileCount), segs[i..], l)
             == AddParts(EMPTY, segs[1..], l)
    {
      assert segs[i..][0] == segs[i] && segs[i..][1..] == segs[i + 1..];
      if StartsWith(segs[i], "--") {
        break;
      }
      var part := Unwrapped(segs[i]);
      if part == [] {
        continue;
      }
      partCount := partCount + 1;
      if partCount > l.maxParts {
        return Err(Http(413));
      }
      var k := Find(part, BLANK);
      if k < 0 {
        return Err(Http(400));
      }
      var headers := Headers(part[..k]);
      if headers.Err? {
        return Err(headers.error);
      }
      var content := part[k + 4..];
      var kind, params := ParseDisposition(Get(headers.value, "content-disposition", ""));
      if kind != "form-data" || "name" !in params {
        return Err(Http(400));
      }
      var name := params["name"];
      if "filename" !in params {
        fields := fields[name := Utf8.Decode(content)];
        continue;
      }
      fileCount := fileCount + 1;
      if fileCount > l.maxFiles {
        return Err(Http(413));
      }
      var ctype' := Lower(Get(headers.value, "content-type", "application/octet-stream"));
      var status := FileStatus(ctype', content, l);
      if status != 0 {
        return Err(Http(status));
      }
      files := files[name := MakeUpload(name, params["filename"], ctype', content)];
    }
    r := Ok(Form(fields, files));
  }

  /** Without an acceptable boundary, or without the delimiter anywhere in the body, there is no form. */
  lemma NotAForm(ctype: bytes, raw: bytes, l: Limits)
    ensures match Boundary(ctype)
            case Err(e) => ParseForm(ctype, raw, l) == Err(e)
            case Ok(b) => Find(raw, "--" + b) < 0 ==> ParseForm(ctype, raw, l) == Err(Http(400))
  {
  }

  // ---- what is never let in ----------------------------------------------------------------

  predicate Safe(f: Upload, l: Limits) {
    |f.content| <= l.maxFileSize && !StartsWith(f.content, "MZ") && !StartsWith(f.content, "#!")
  }

  ghost predicate AllSafe(files: map<bytes, Upload>, l: Limits) {
    forall name :: name in files ==> Safe(files[name], l) && files[name].name == name
  }

  lemma AcceptedIsSafe(name: bytes, filename: bytes, ctype: bytes, content: bytes, l: Limits)
    requires FileStatus(ctype, content, l) == 0
    ensures Safe(MakeUpload(name, filename, ctype, content), l)
  {
    var head := content[..if |content| < 8 then |content| else 8];
    if |content| >= 2 { assert content[..2] == head[..2]; }
    MagicExcludes(head);
  }

  lemma OtherFirst(s: bytes, p: bytes, q: bytes)
    requires StartsWith(s, q) && p != [] && q != [] && p[0] != q[0]
    ensures !StartsWith(s, p)
  {
    assert s[..|q|][0] == s[0];
  }

  /** The magic numbers that are looked for first exclude the ones that are refused. */
  lemma MagicExcludes(head: bytes)
    ensures StartsWith(head, "MZ") ==> Sniff(head) == Some("application/vnd.microsoft.portable-executable")
    ensures StartsWith(head, "#!") ==> Sniff(head) == Some("text/x-shellscript")
  {
    if StartsWith(head, "MZ") {
      EarlierMagics(head, "MZ");
    }
    if StartsWith(head, "#!") {
      EarlierMagics(head, "#!");
      OtherFirst(head, "MZ", "#!");
    }
    hide StartsWith, Chars;
  }

  lemma EarlierMagics(head: bytes, q: bytes)
    requires StartsWith(head, q) && q != [] && q[0] in "M#"
    ensures !StartsWith(head, Chars([0x89, 0x50, 0x4e, 0x47, 0x0d, 0x0a, 0x1a, 0x0a]))
    ensures !StartsWith(head, Chars([0xff, 0xd8, 0xff])) && !StartsWith(head, Chars([0x50, 0x4b, 0x03, 0x04]))
    ensures !StartsWith(head, "GIF87a") && !StartsWith(head, "GIF89a") && !StartsWith(head, "%PDF-")
  {
    hide StartsWith;
    assert 0 < |Chars([0xff])|;
    OtherFirst(head, Chars([0x89, 0x50, 0x4e, 0x47, 0x0d, 0x0a, 0x1a, 0x0a]), q);
    OtherFirst(head, Chars([0xff, 0xd8, 0xff]), q);
    OtherFirst(head, Chars([0x50, 0x4b, 0x03, 0x04]), q);
    OtherFirst(head, "GIF87a", q);
    OtherFirst(head, "GIF89a", q);
    OtherFirst(head, "%PDF-", q);
  }

  /** Whatever the request says, an accepted form holds at most `maxFiles` files, none over the size limit, and
      none that starts like an executable or a script. */
  lemma {:induction false} FilesAreSafe(st: Progress, segs: seq<bytes>, l: Limits)
    requires AllSafe(st.form.files, l) && |st.form.files| <= st.fileCount <= l.maxFiles
    ensures AddParts(st, segs, l).Ok? ==>
              AllSafe(AddParts(st, segs, l).value.files, l) && |AddParts(st, segs, l).value.files| <= l.maxFiles
    decreases |segs|
  {
    hide Safe, FileStatus, MakeUpload, ReadPart, Unwrapped, StartsWith;
    if segs != [] && !StartsWith(segs[0], "--") {
      var part := Unwrapped(segs[0]);
      if part == [] {
        FilesAreSafe(st, segs[1..], l);
      } else {
        var r := AddPart(st, part, l);
        if r.Ok? {
          ItemIsSafe(st.(partCount := st.partCount + 1), ReadPart(part).value, l);
          FilesAreSafe(r.value, segs[1..], l);
        }
      }
    }
  }

  lemma ItemIsSafe(st: Progress, item: Item, l: Limits)
    requires AllSafe(st.form.files, l) && |st.form.files| <= st.fileCount <= l.maxFiles
    ensures var r := AddItem(st, item, l);
            r.Ok? ==> AllSafe(r.value.form.files, l) && |r.value.form.files| <= r.value.fileCount <= l.maxFiles
  {
    hide Safe, FileStatus, Sniff, AllSafe;
    match item
    case FieldItem(_, _) =>
    case FileItem(name, filename, ctype, content) =>
      if FileStatus(ctype, content, l) == 0 {
        AcceptedIsSafe(name, filename, ctype, content, l);
        FileKept(st.form.files, MakeUpload(name, filename, ctype, content), l);
      }
  }

  lemma FileKept(files: map<bytes, Upload>, f: Upload, l: Limits)
    requires AllSafe(files, l) && Safe(f, l)
    ensures AllSafe(files[f.name := f], l) && |files[f.name := f]| <= |files| + 1
  {
    hide Safe;
    assert files[f.name := f].Keys == files.Keys + {f.name};
  }

  lemma ParsedFilesAreSafe(ctype: bytes, raw: bytes, l: Limits)
    requires l.maxFiles >= 0
    ensures ParseForm(ctype, raw, l).Ok? ==>
              AllSafe(ParseForm(ctype, raw, l).value.files, l) && |ParseForm(ctype, raw, l).value.files| <= l.maxFiles
  {
    hide Boundary, Split, AddParts, Safe;
    var b := Boundary(ctype);
    if b.Ok? {
      FilesAreSafe(EMPTY, Split(raw, "--" + b.value)[1..], l);
    }
  }
}
