/** Byte-string helpers with the meaning of Python's `in`, `index`, `split`, `strip` and `lower`.

    A byte is written as the character with the same code (ISO 8859-1), which is also how the
    server decodes header bytes, so one set of helpers serves both `bytes` and header `str`. */
module Text {
  type bytes = string

  const CRLF: bytes := "\r\n"

  ghost predicate At(s: bytes, m: bytes, i: int) {
    0 <= i <= |s| - |m| && s[i..i + |m|] == m
  }

  lemma Assoc(a: bytes, b: bytes, c: bytes)
    ensures a + b + c == a + (b + c)
  {
  }

  lemma NotInConcat(c: char, a: bytes, b: bytes)
    requires c !in a && c !in b
    ensures c !in a + b
  {
  }

  lemma AtChar(s: bytes, m: bytes, j: int, i: nat)
    requires i < |m|
    ensures At(s, m, j) ==> s[j + i] == m[i]
  {
  }

  /** First position at or after `i` where `m` occurs, or -1. */
  function FindFrom(s: bytes, m: bytes, i: nat): (k: int)
    requires i <= |s|
    ensures k < 0 ==> k == -1 && forall j :: i <= j ==> !At(s, m, j)
    ensures k >= 0 ==> i <= k && At(s, m, k) && forall j :: i <= j < k ==> !At(s, m, j)
    decreases |s| - i
  {
    if |s| - i < |m| then
      -1
    else if s[i..i + |m|] == m then
      assert At(s, m, i);
      i
    else
      assert !At(s, m, i);
      if i == |s| then -1 else FindFrom(s, m, i + 1)
  }

  /** `s.find(m)`: the first occurrence, or -1. */
  function Find(s: bytes, m: bytes): (k: int)
    ensures k < 0 ==> k == -1 && forall j :: !At(s, m, j)
    ensures k >= 0 ==> At(s, m, k) && forall j :: j < k ==> !At(s, m, j)
  {
    FindFrom(s, m, 0)
  }

  lemma FindIs(s: bytes, m: bytes, k: nat)
    requires At(s, m, k) && forall j :: 0 <= j < k ==> !At(s, m, j)
    ensures Find(s, m) == k
  {
  }

  /** What has been found in a prefix stays the first occurrence when more bytes arrive. */
  lemma FindPrefix(a: bytes, b: bytes, m: bytes)
    ensures Find(a, m) >= 0 ==> Find(a + b, m) == Find(a, m)
    ensures Find(a, m) < 0 && Find(a + b, m) >= 0 ==> Find(a + b, m) + |m| > |a|
  {
    forall j | 0 <= j <= |a| - |m|
      ensures At(a, m, j) == At(a + b, m, j)
    {
      assert (a + b)[j..j + |m|] == a[j..j + |m|];
    }
  }

  /** No occurrence of `m` starts inside `p` when `m` follows `p`. */
  ghost predicate Clear(p: bytes, m: bytes) {
    forall j :: 0 <= j < |p| ==> !At(p + m, m, j)
  }

  lemma FindAfterClear(p: bytes, m: bytes, rest: bytes)
    requires Clear(p, m)
    ensures Find(p + m + rest, m) == |p|
  {
    var s := p + m + rest;
    forall j | 0 <= j < |p|
      ensures !At(s, m, j)
    {
      assert !At(p + m, m, j);
      assert s[j..j + |m|] == (p + m)[j..j + |m|];
    }
    assert s[|p|..|p| + |m|] == m;
    FindIs(s, m, |p|);
  }

  /** A text without the marker's first character cannot hold the start of a marker. */
  lemma ClearWithoutHead(p: bytes, m: bytes)
    requires m != [] && m[0] !in p
    ensures Clear(p, m)
  {
    forall j | 0 <= j < |p|
      ensures !At(p + m, m, j)
    {
      AtChar(p + m, m, j, 0);
    }
  }

  /** A text that does not contain the marker and ends in a character foreign to it is clear of it. */
  lemma ClearByLast(p: bytes, m: bytes)
    requires p != [] && p[|p| - 1] !in m
    requires Find(p, m) < 0
    ensures Clear(p, m)
  {
    forall j | 0 <= j < |p|
      ensures !At(p + m, m, j)
    {
      if j + |m| <= |p| {
        assert (p + m)[j..j + |m|] == p[j..j + |m|];
        assert !At(p, m, j);
      } else {
        AtChar(p + m, m, j, |p| - 1 - j);
      }
    }
  }

  /** `s.split(sep)` */
  function Split(s: bytes, sep: bytes): (r: seq<bytes>)
    requires sep != []
    ensures |r| > 0
    decreases |s|
  {
    var k := Find(s, sep);
    if k < 0 then [s] else [s[..k]] + Split(s[k + |sep|..], sep)
  }

  /** The inverse of `Split`: `sep.join(parts)` for a nonempty list. */
  function Join(parts: seq<bytes>, sep: bytes): bytes
    requires |parts| > 0
  {
    if |parts| == 1 then parts[0] else parts[0] + sep + Join(parts[1..], sep)
  }

  lemma {:induction false} JoinSplit(s: bytes, sep: bytes)
    requires sep != []
    ensures Join(Split(s, sep), sep) == s
    decreases |s|
  {
    var k := Find(s, sep);
    if k >= 0 {
      JoinSplit(s[k + |sep|..], sep);
      var tail := Split(s[k + |sep|..], sep);
      assert Split(s, sep)[1..] == tail;
      assert s == s[..k] + s[k..k + |sep|] + s[k + |sep|..];
    }
  }

  lemma SplitClear(p: bytes, sep: bytes, rest: bytes)
    requires sep != [] && Clear(p, sep)
    ensures Split(p + sep + rest, sep) == [p] + Split(rest, sep)
  {
    var s := p + sep + rest;
    FindAfterClear(p, sep, rest);
    assert s[..|p|] == p && s[|p| + |sep|..] == rest;
  }

  lemma SplitSingle(p: bytes, sep: bytes)
    requires sep != [] && sep[0] !in p
    ensures Find(p, sep) < 0 && Split(p, sep) == [p]
  {
    forall j ensures !At(p, sep, j) {
      AtChar(p, sep, j, 0);
    }
  }

  /** No piece contains the separator. */
  lemma {:induction false} PiecesHaveNone(s: bytes, sep: bytes)
    requires sep != []
    ensures forall i :: 0 <= i < |Split(s, sep)| ==> Find(Split(s, sep)[i], sep) < 0
    decreases |s|
  {
    var k := Find(s, sep);
    if k < 0 {
    } else {
      BeforeFirst(s, sep);
      PiecesHaveNone(s[k + |sep|..], sep);
      hide Find;
      var tail := Split(s[k + |sep|..], sep);
      assert Split(s, sep) == [s[..k]] + tail;
      assert forall i :: 0 < i <= |tail| ==> Split(s, sep)[i] == tail[i - 1];
    }
  }

  lemma BeforeFirst(s: bytes, m: bytes)
    requires m != [] && Find(s, m) >= 0
    ensures Find(s[..Find(s, m)], m) < 0
  {
    var k := Find(s, m);
    forall j ensures !At(s[..k], m, j) {
      if 0 <= j <= k - |m| {
        assert s[..k] == s[0..k];
        SliceOfSlice(s, 0, k, j, j + |m|);
        assert !At(s, m, j);
      }
    }
  }

  lemma SliceOfSlice(s: bytes, i: nat, j: nat, a: nat, b: nat)
    requires i <= j <= |s| && a <= b <= j - i
    ensures s[i..j][a..b] == s[i + a..i + b]
  {
    var t := s[i..j];
    assert |t[a..b]| == |s[i + a..i + b]|;
    assert forall k :: 0 <= k < b - a ==> t[a..b][k] == t[a + k] == s[i + a + k] == s[i + a..i + b][k];
  }

  lemma SliceHasNone(s: bytes, m: bytes, i: nat, j: nat)
    requires i <= j <= |s| && Find(s, m) < 0
    ensures Find(s[i..j], m) < 0
  {
    forall k ensures !At(s[i..j], m, k) {
      if 0 <= k <= j - i - |m| {
        SliceOfSlice(s, i, j, k, k + |m|);
        assert !At(s, m, i + k);
      }
    }
  }

  /** Splitting undoes joining for pieces that cannot be confused with the separator. */
  lemma {:induction false} SplitJoin(parts: seq<bytes>, sep: bytes)
    requires sep != [] && |parts| > 0
    requires forall i :: 0 <= i < |parts| ==> sep[0] !in parts[i]
    ensures Split(Join(parts, sep), sep) == parts
  {
    hide At, Clear, Find;
    if |parts| == 1 {
      SplitSingle(parts[0], sep);
    } else {
      ClearWithoutHead(parts[0], sep);
      SplitClear(parts[0], sep, Join(parts[1..], sep));
      SplitJoin(parts[1..], sep);
    }
  }

  predicate Ascii(s: bytes) {
    forall i :: 0 <= i < |s| ==> s[i] as int < 0x80
  }

  predicate StartsWith(s: bytes, p: bytes) {
    |p| <= |s| && s[..|p|] == p
  }

  predicate EndsWith(s: bytes, p: bytes) {
    |p| <= |s| && s[|s| - |p|..] == p
  }

  /** Whitespace as `bytes.strip()` sees it. */
  predicate IsSpace(c: char) {
    c == ' ' || 9 <= c as int <= 13
  }

  /** Whitespace as `str.strip()` sees it below code 256. */
  predicate IsStrSpace(c: char) {
    IsSpace(c) || 0x1c <= c as int <= 0x1f || c as int == 0x85 || c as int == 0xa0
  }

  /** `bytes.strip()` */
  function StripBytes(s: bytes): bytes {
    if s != [] && IsSpace(s[0]) then StripBytes(s[1..])
    else if s != [] && IsSpace(s[|s| - 1]) then StripBytes(s[..|s| - 1])
    else s
  }

  /** `str.strip()` */
  function Trim(s: bytes): bytes {
    if s != [] && IsStrSpace(s[0]) then Trim(s[1..])
    else if s != [] && IsStrSpace(s[|s| - 1]) then Trim(s[..|s| - 1])
    else s
  }

  predicate IsLineEnd(c: char) {
    c == '\r' || c == '\n'
  }

  /** `s.rstrip(b"\r\n")` */
  function StripLineEnd(s: bytes): bytes {
    if s != [] && IsLineEnd(s[|s| - 1]) then StripLineEnd(s[..|s| - 1]) else s
  }

  /** Nothing to strip at either end. */
  predicate Trimmed(s: bytes) {
    s != [] ==> !IsStrSpace(s[0]) && !IsStrSpace(s[|s| - 1])
  }

  lemma TrimSpaced(s: bytes)
    requires Trimmed(s)
    ensures Trim(s) == s && Trim(" " + s) == s
  {
    assert (" " + s)[1..] == s;
  }

  /** `str.lower()` below code 256. */
  function LowerChar(c: char): char {
    if 'A' <= c <= 'Z' || (0xc0 <= c as int <= 0xde && c as int != 0xd7) then (c as int + 32) as char else c
  }

  function Lower(s: bytes): (r: bytes)
    ensures |r| == |s| && forall i :: 0 <= i < |s| ==> r[i] == LowerChar(s[i])
  {
    seq(|s|, i requires 0 <= i < |s| => LowerChar(s[i]))
  }

  lemma LowerIs(s: bytes)
    requires forall i :: 0 <= i < |s| ==> LowerChar(s[i]) == s[i]
    ensures Lower(s) == s
  {
  }

  function UpperChar(c: char): char {
    if 'a' <= c <= 'z' then (c as int - 32) as char else c
  }

  function Upper(s: bytes): (r: bytes)
    ensures |r| == |s| && forall i :: 0 <= i < |s| ==> r[i] == UpperChar(s[i])
  {
    seq(|s|, i requires 0 <= i < |s| => UpperChar(s[i]))
  }
}
