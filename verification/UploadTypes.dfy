/** What the first bytes of an uploaded file say about its type (sovereign/multipart.py:40-58), as a table, and which
    files are welcome. */
module UploadTypes {
  import opened Errors
  import opened Text
  import opened Multipart

  /** Magic bytes and the type they stand for. */
  const MAGICS: seq<(bytes, bytes)> := [
    ("\U{89}PNG\r\n\U{1a}\n", "image/png"),
    ("\U{ff}\U{d8}\U{ff}", "image/jpeg"),
    ("GIF87a", "image/gif"),
    ("GIF89a", "image/gif"),
    ("%PDF-", "application/pdf"),
    ("PK\U{3}\U{4}", "application/zip"),
    ("MZ", "application/vnd.microsoft.portable-executable"),
    ("#!", "text/x-shellscript"),
    ("<?xml", "application/xml"),
    ("<svg", "application/xml")]

  /** The content begins with magic bytes of this type. */
  predicate Shows(content: bytes, t: bytes) {
    exists k :: 0 <= k < |MAGICS| && StartsWith(content, MAGICS[k].0) && MAGICS[k].1 == t
  }

  /** The type the content shows, if any. */
  ghost function Shown(content: bytes): (r: Option<bytes>)
    ensures match r case Some(t) => Shows(content, t) case None => forall t :: !Shows(content, t)
  {
    if t: bytes :| Shows(content, t) then Some(t) else None
  }

  /** A file that is kept: not too large, no executable and no script, and, unless mismatches are allowed, one that
      is declared as an image, PDF or ZIP file does not show another type. */
  ghost predicate Welcome(declared: bytes, content: bytes, l: Limits) {
    && |content| <= l.maxFileSize
    && !Shows(content, "application/vnd.microsoft.portable-executable") && !Shows(content, "text/x-shellscript")
    && (l.allowMismatch || (forall t :: Shows(content, t) ==> t == declared) ||
        !(StartsWith(declared, "image/") || StartsWith(declared, "application/pdf")
          || StartsWith(declared, "application/zip")))
  }

  /** No two types begin alike. */
  lemma ShowsOne(content: bytes, t: bytes, t': bytes)
    requires Shows(content, t) && Shows(content, t')
    ensures t == t'
  {
    hide StartsWith;
    forall k | 0 <= k < |MAGICS| && StartsWith(content, MAGICS[k].0)
      ensures content != [] && content[0] == MAGICS[k].0[0]
    {
      FirstByte(content, MAGICS[k].0);
    }
  }

  lemma FirstByte(s: bytes, m: bytes)
    requires StartsWith(s, m) && m != []
    ensures s != [] && s[0] == m[0]
  {
    assert s[..|m|][0] == s[0];
  }

  function Start(content: bytes): bytes {
    content[..if |content| < 8 then |content| else 8]
  }

  lemma StartSuffices(content: bytes, m: bytes)
    requires |m| <= 8
    ensures StartsWith(Start(content), m) <==> StartsWith(content, m)
  {
    if |m| <= |content| { assert Start(content)[..|m|] == content[..|m|]; }
  }

  lemma MagicChars()
    ensures Chars([0x89, 0x50, 0x4e, 0x47, 0x0d, 0x0a, 0x1a, 0x0a]) == "\U{89}PNG\r\n\U{1a}\n"
    ensures Chars([0xff, 0xd8, 0xff]) == "\U{ff}\U{d8}\U{ff}" && Chars([0x50, 0x4b, 0x03, 0x04]) == "PK\U{3}\U{4}"
  {
  }

  /** `sniff_mime` on the first eight bytes answers the type shown. */
  lemma SniffExactly(content: bytes)
    ensures Sniff(Start(content)) == Shown(content)
  {
    hide StartsWith, Start, Shown, Chars;
    MagicChars();
    forall k | 0 <= k < |MAGICS|
      ensures StartsWith(Start(content), MAGICS[k].0) <==> StartsWith(content, MAGICS[k].0)
    {
      StartSuffices(content, MAGICS[k].0);
    }
    var r := Sniff(Start(content));
    assert forall k :: 0 <= k < |MAGICS| && StartsWith(content, MAGICS[k].0) ==> r.Some?;
    assert r.Some? ==> Shows(content, r.value) by {
      assert MAGICS[0].0[0] == '\U{89}' && MAGICS[1].0[0] == '\U{ff}' && MAGICS[2].0[0] == MAGICS[3].0[0] == 'G';
      assert MAGICS[4].0[0] == '%' && MAGICS[5].0[0] == 'P' && MAGICS[6].0[0] == 'M' && MAGICS[7].0[0] == '#';
      assert MAGICS[8].0[0] == MAGICS[9].0[0] == '<';
    }
    if r.Some? && Shown(content).Some? {
      ShowsOne(content, r.value, Shown(content).value);
    }
  }

  /** A file is kept if and only if it is welcome; else the size is refused with 413, the type with 415. */
  lemma StatusExactly(declared: bytes, content: bytes, l: Limits)
    ensures FileStatus(declared, content, l)
         == if Welcome(declared, content, l) then 0 else if |content| > l.maxFileSize then 413 else 415
  {
    hide Sniff, Shows, Shown;
    SniffExactly(content);
    ShownOnly(content, "application/vnd.microsoft.portable-executable");
    ShownOnly(content, "text/x-shellscript");
    ShownOnly(content, declared);
    forall t | Shows(content, t)
      ensures Shown(content) == Some(t)
    {
      ShownOnly(content, t);
    }
  }

  lemma ShownOnly(content: bytes, t: bytes)
    ensures Shows(content, t) <==> Shown(content) == Some(t)
  {
    hide Shows;
    if Shows(content, t) {
      ShowsOne(content, t, Shown(content).value);
    }
  }

  /** What is stored of a file. */
  lemma UploadIs(name: bytes, filename: bytes, declared: bytes, content: bytes)
    ensures MakeUpload(name, filename, declared, content) == Upload(name, filename, declared, content, Shown(content))
  {
    hide Sniff, Shown;
    SniffExactly(content);
  }
}
