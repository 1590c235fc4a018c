/** `bytes.decode("utf-8", errors="replace")` and `str.encode("utf-8")`. A byte is the character with the same code;
    a text is a sequence of Unicode scalar values. */
module Utf8 {
  import opened Text

  const REPLACEMENT: char := '\U{FFFD}'

  // ---- one character -----------------------------------------------------------------------

  predicate Continuation(b: char) {
    0x80 <= b as int < 0xC0
  }

  /** How many bytes a first byte announces; 0 if it announces nothing. */
  function Wanted(b: char): nat {
    var x := b as int;
    if x < 0x80 then 1
    else if 0xC2 <= x < 0xE0 then 2
    else if 0xE0 <= x < 0xF0 then 3
    else if 0xF0 <= x < 0xF5 then 4
    else 0
  }

  /** No overlong form, no surrogate, nothing beyond the last code point. */
  predicate SecondFits(a: char, b: char) {
    && Continuation(b)
    && (a as int == 0xE0 ==> b as int >= 0xA0)
    && (a as int == 0xED ==> b as int < 0xA0)
    && (a as int == 0xF0 ==> b as int >= 0x90)
    && (a as int == 0xF4 ==> b as int < 0x90)
  }

  /** The length of the longest prefix of a character at the start of `s`; at least 1. */
  function PrefixLength(s: bytes): (n: nat)
    requires s != []
    ensures 1 <= n <= |s| && n <= 4
  {
    var w := Wanted(s[0]);
    if w < 2 || |s| < 2 || !SecondFits(s[0], s[1]) then 1
    else if w == 2 || |s| < 3 || !Continuation(s[2]) then 2
    else if w == 3 || |s| < 4 || !Continuation(s[3]) then 3
    else 4
  }

  predicate Complete(s: bytes)
    requires s != []
  {
    PrefixLength(s) == Wanted(s[0])
  }

  function Low(b: char): int {
    b as int % 0x40
  }

  function CodePoint(s: bytes): (c: int)
    requires s != [] && Complete(s)
    ensures 0 <= c < 0xD800 || 0xE000 <= c < 0x11_0000
    ensures c < 0x80 <==> Wanted(s[0]) == 1
  {
    var x := s[0] as int;
    match Wanted(s[0])
    case 1 => x
    case 2 => (x - 0xC0) * 0x40 + Low(s[1])
    case 3 => (x - 0xE0) * 0x1000 + Low(s[1]) * 0x40 + Low(s[2])
    case _ => (x - 0xF0) * 0x4_0000 + Low(s[1]) * 0x1000 + Low(s[2]) * 0x40 + Low(s[3])
  }

  /** The character at the start of `s`, or the replacement for its longest prefix. */
  function First(s: bytes): char
    requires s != []
  {
    if Complete(s) then CodePoint(s) as char else REPLACEMENT
  }

  function EncodeChar(c: char): (s: bytes)
    ensures s != []
  {
    var x := c as int;
    if x < 0x80 then [c]
    else if x < 0x800 then [(0xC0 + x / 0x40) as char, (0x80 + x % 0x40) as char]
    else if x < 0x1_0000 then
      [(0xE0 + x / 0x1000) as char, (0x80 + x / 0x40 % 0x40) as char, (0x80 + x % 0x40) as char]
    else
      [(0xF0 + x / 0x4_0000) as char, (0x80 + x / 0x1000 % 0x40) as char, (0x80 + x / 0x40 % 0x40) as char,
       (0x80 + x % 0x40) as char]
  }

  lemma Digits(a: int, b: int, c: int, d: int)
    requires 0 <= a && 0 <= b < 0x40 && 0 <= c < 0x40 && 0 <= d < 0x40
    ensures var x := a * 0x4_0000 + b * 0x1000 + c * 0x40 + d;
            x / 0x4_0000 == a && x / 0x1000 % 0x40 == b && x / 0x40 % 0x40 == c && x % 0x40 == d
  {
    var y := a * 0x40 + b;
    var z := y * 0x40 + c;
    assert z / 0x40 == y && z % 0x40 == c && y / 0x40 == a && y % 0x40 == b;
    var x := a * 0x4_0000 + b * 0x1000 + c * 0x40 + d;
    assert x == z * 0x40 + d && x / 0x40 == z && x % 0x40 == d;
    assert x / 0x1000 == y && x / 0x4_0000 == a;
  }

  /** The leading digits of a code point below 0x1_0000, and below 0x800. */
  lemma FewDigits(x: int)
    requires 0 <= x < 0x1_0000
    ensures x / 0x1000 % 0x40 == x / 0x1000 && (x < 0x800 ==> x / 0x40 % 0x40 == x / 0x40)
  {
  }

  lemma CompleteEncodes(s: bytes)
    requires s != [] && Complete(s)
    ensures EncodeChar(First(s)) == s[..PrefixLength(s)]
  {
    hide EncodeChar, CodePoint, First;
    match Wanted(s[0])
    case 1 => OneEncodes(s);
    case 2 => TwoEncode(s);
    case 3 => ThreeEncode(s);
    case _ => FourEncode(s);
  }

  lemma OneEncodes(s: bytes)
    requires s != [] && Complete(s) && Wanted(s[0]) == 1
    ensures EncodeChar(First(s)) == [s[0]]
  {
  }

  lemma TwoEncode(s: bytes)
    requires s != [] && Complete(s) && Wanted(s[0]) == 2
    ensures EncodeChar(First(s)) == [s[0], s[1]]
  {
    LowOf(s[1]);
    Digits(0, 0, s[0] as int - 0xC0, s[1] as int - 0x80);
    FewDigits(CodePoint(s));
  }

  lemma ThreeEncode(s: bytes)
    requires s != [] && Complete(s) && Wanted(s[0]) == 3
    ensures EncodeChar(First(s)) == [s[0], s[1], s[2]]
  {
    LowOf(s[1]);
    LowOf(s[2]);
    Digits(0, s[0] as int - 0xE0, s[1] as int - 0x80, s[2] as int - 0x80);
    FewDigits(CodePoint(s));
  }

  lemma FourEncode(s: bytes)
    requires s != [] && Complete(s) && Wanted(s[0]) == 4
    ensures EncodeChar(First(s)) == [s[0], s[1], s[2], s[3]]
  {
    LowOf(s[1]);
    LowOf(s[2]);
    LowOf(s[3]);
    Digits(s[0] as int - 0xF0, s[1] as int - 0x80, s[2] as int - 0x80, s[3] as int - 0x80);
  }

  lemma LowOf(b: char)
    requires Continuation(b)
    ensures Low(b) == b as int - 0x80 && 0 <= Low(b) < 0x40
  {
  }

  lemma EncodedIsComplete(c: char, rest: bytes)
    ensures var s := EncodeChar(c) + rest;
            Complete(s) && PrefixLength(s) == |EncodeChar(c)| && First(s) == c
  {
    var x, s := c as int, EncodeChar(c) + rest;
    Places(x);
    if x >= 0x80 {
      EncodedPrefix(c, rest);
      LowOf(s[1]);
      if x >= 0x800 { LowOf(s[2]); }
      if x >= 0x1_0000 { LowOf(s[3]); }
      hide PrefixLength, SecondFits;
      assert CodePoint(s) == x;
    }
  }

  lemma EncodedPrefix(c: char, rest: bytes)
    requires c as int >= 0x80
    ensures var s, n := EncodeChar(c) + rest, |EncodeChar(c)|;
            && n >= 2 && Wanted(s[0]) == n == PrefixLength(s)
            && forall i :: 1 <= i < n ==> Continuation(s[i])
  {
    Places(c as int);
  }

  /** A code point is the sum of its digits. */
  lemma Places(x: int)
    requires 0 <= x < 0x11_0000
    ensures x == x / 0x4_0000 * 0x4_0000 + x / 0x1000 % 0x40 * 0x1000 + x / 0x40 % 0x40 * 0x40 + x % 0x40
    ensures x < 0x1_0000 ==> x / 0x4_0000 == 0 && x / 0x1000 % 0x40 == x / 0x1000
    ensures x < 0x800 ==> x / 0x1000 == 0 && x / 0x40 % 0x40 == x / 0x40
  {
    assert x / 0x1000 == x / 0x40 / 0x40 && x / 0x4_0000 == x / 0x1000 / 0x40;
  }

  // ---- whole texts -------------------------------------------------------------------------

  function Decode(s: bytes): string
    decreases |s|
  {
    if s == [] then [] else [First(s)] + Decode(s[PrefixLength(s)..])
  }

  function Encode(t: string): bytes {
    if t == [] then [] else EncodeChar(t[0]) + Encode(t[1..])
  }

  /** Well-formed UTF-8. */
  predicate Valid(s: bytes)
    decreases |s|
  {
    s == [] || (Complete(s) && Valid(s[PrefixLength(s)..]))
  }

  /** Every text survives encoding and decoding. */
  lemma {:induction false} DecodeEncode(t: string)
    ensures Decode(Encode(t)) == t
  {
    hide EncodeChar, First, PrefixLength;
    if t == [] {
    } else {
      var rest := Encode(t[1..]);
      EncodedIsComplete(t[0], rest);
      assert (EncodeChar(t[0]) + rest)[|EncodeChar(t[0])|..] == rest;
      DecodeEncode(t[1..]);
      assert t == [t[0]] + t[1..];
    }
  }

  /** Bytes survive decoding with replacement and encoding exactly when they are well-formed. */
  lemma {:induction false} EncodeDecodeExactly(s: bytes)
    ensures Encode(Decode(s)) == s <==> Valid(s)
    decreases |s|
  {
    hide EncodeChar, First, PrefixLength, Complete, Decode, Encode, Valid;
    if s == [] {
      Nothing();
    } else {
      var n := PrefixLength(s);
      var rest := s[n..];
      Unfold(s);
      EncodeDecodeExactly(rest);
      var again := EncodeChar(First(s)) + Encode(Decode(rest));
      assert s == s[..n] + rest;
      if Complete(s) {
        CompleteEncodes(s);
        SamePrefix(s[..n], Encode(Decode(rest)), rest);
      } else if again == s {
        EncodedIsComplete(First(s), Encode(Decode(rest)));
      }
    }
  }

  lemma Nothing()
    ensures Decode([]) == [] && Encode([]) == [] && Valid([])
  {
  }

  lemma Unfold(s: bytes)
    requires s != []
    ensures var rest := s[PrefixLength(s)..];
            && Decode(s) == [First(s)] + Decode(rest)
            && Encode(Decode(s)) == EncodeChar(First(s)) + Encode(Decode(rest))
            && (Valid(s) <==> Complete(s) && Valid(rest))
  {
    hide PrefixLength, EncodeChar, First, Complete;
    var more := Decode(s[PrefixLength(s)..]);
    assert ([First(s)] + more)[1..] == more;
  }

  lemma SamePrefix(p: bytes, x: bytes, y: bytes)
    ensures p + x == p + y <==> x == y
  {
    assert (p + x)[|p|..] == x && (p + y)[|p|..] == y;
  }

  // ---- ASCII passes through ----------------------------------------------------------------

  predicate Contains(s: bytes, m: bytes) {
    StartsWith(s, m) || (s != [] && Contains(s[1..], m))
  }

  lemma {:induction false} ContainsIsFound(s: bytes, m: bytes)
    requires m != []
    ensures Contains(s, m) <==> Find(s, m) >= 0
  {
    if s == [] {
    } else {
      ContainsIsFound(s[1..], m);
      FoundFirstOrLater(s, m);
    }
  }

  lemma FoundFirstOrLater(s: bytes, m: bytes)
    requires s != [] && m != []
    ensures Find(s, m) >= 0 <==> StartsWith(s, m) || Find(s[1..], m) >= 0
  {
    var k, k1 := Find(s, m), Find(s[1..], m);
    if k > 0 {
      AtShifts(s, m, k - 1);
    }
    if k1 >= 0 {
      AtShifts(s, m, k1);
    }
    if StartsWith(s, m) {
      assert At(s, m, 0);
    }
  }

  lemma AtShifts(s: bytes, m: bytes, j: nat)
    requires s != []
    ensures At(s, m, j + 1) <==> At(s[1..], m, j)
  {
    if j + 1 + |m| <= |s| {
      assert s[1..|s|] == s[1..];
      SliceOfSlice(s, 1, |s|, j, j + |m|);
    }
  }

  /** The first character is the first byte, or neither is ASCII. */
  lemma FirstAscii(s: bytes)
    requires s != []
    ensures s[0] as int < 0x80 ==> First(s) == s[0] && PrefixLength(s) == 1
    ensures s[0] as int >= 0x80 ==> First(s) as int >= 0x80
    ensures forall i :: 0 < i < PrefixLength(s) ==> s[i] as int >= 0x80
  {
  }

  lemma {:induction false} DecodedStart(s: bytes, m: bytes)
    requires Ascii(m)
    ensures StartsWith(Decode(s), m) <==> StartsWith(s, m)
    decreases |m|
  {
    hide First, PrefixLength;
    if m == [] || s == [] {
    } else {
      FirstAscii(s);
      var t := Decode(s);
      assert t[0] == First(s) && t[1..] == Decode(s[PrefixLength(s)..]);
      StartByOne(s, m);
      StartByOne(t, m);
      if s[0] as int < 0x80 {
        DecodedStart(s[1..], m[1..]);
      }
    }
  }

  lemma StartByOne(s: bytes, m: bytes)
    requires s != [] && m != []
    ensures StartsWith(s, m) <==> s[0] == m[0] && StartsWith(s[1..], m[1..])
  {
    if |m| <= |s| {
      assert s[..|m|] == [s[0]] + s[1..][..|m| - 1];
      assert m == [m[0]] + m[1..];
    }
  }

  /** Nothing ASCII starts at a byte that is not. */
  lemma {:induction false} SkipForeign(s: bytes, n: nat, m: bytes)
    requires n <= |s| && m != [] && Ascii(m)
    requires forall i :: 0 <= i < n ==> s[i] as int >= 0x80
    ensures Contains(s, m) <==> Contains(s[n..], m)
  {
    if n == 0 {
      assert s[0..] == s;
    } else {
      StartByOne(s, m);
      SkipForeign(s[1..], n - 1, m);
      assert s[1..][n - 1..] == s[n..];
    }
  }

  lemma {:induction false} DecodedContains(s: bytes, m: bytes)
    requires m != [] && Ascii(m)
    ensures Contains(Decode(s), m) <==> Contains(s, m)
    decreases |s|
  {
    hide First, PrefixLength, StartsWith;
    if s == [] {
    } else {
      var n, t := PrefixLength(s), Decode(s);
      FirstAscii(s);
      DecodedStart(s, m);
      DecodedContains(s[n..], m);
      assert t[1..] == Decode(s[n..]);
      SkipForeign(s[1..], n - 1, m);
      assert s[1..][n - 1..] == s[n..];
    }
  }

  /** Decoding, even with replacement, neither creates nor destroys an ASCII marker; nor does encoding. */
  lemma MarkersPass(s: bytes, t: string, m: bytes)
    requires m != [] && Ascii(m)
    ensures Find(Decode(s), m) < 0 <==> Find(s, m) < 0
    ensures Find(Encode(t), m) < 0 <==> Find(t, m) < 0
  {
    hide Contains, Decode, Encode, Find;
    ContainsIsFound(s, m);
    ContainsIsFound(Decode(s), m);
    DecodedContains(s, m);
    DecodeEncode(t);
    ContainsIsFound(t, m);
    ContainsIsFound(Encode(t), m);
    DecodedContains(Encode(t), m);
  }

  /** A byte that is no UTF-8 comes back as the replacement character, which is three bytes. */
  lemma InvalidByte()
    ensures var s := [0xFF as char]; Decode(s) == [REPLACEMENT] && !Valid(s) && |Encode(Decode(s))| == 3
  {
    var s := [0xFF as char];
    assert s[1..] == [] && [REPLACEMENT][1..] == [];
    assert Encode([]) == [];
  }
}
