/** Which lines are chunk sizes, and which numbers they are: exactly what `int(line.strip(), 16)` takes
    (sovereign/parser.py:74-79). */
module ChunkSizes {
  import opened Errors
  import opened Text
  import opened ChunkedCoding

  /** Hex digits, between which single underscores may stand. */
  predicate Separated(s: bytes) {
    && s != [] && s[0] != '_' && s[|s| - 1] != '_'
    && (forall i :: 0 <= i < |s| ==> s[i] == '_' || DigitValue(s[i]) >= 0)
    && (forall i :: 0 < i < |s| ==> s[i - 1] != '_' || s[i] != '_')
  }

  function Digits(s: bytes): bytes {
    if s == [] then [] else (if s[0] == '_' then [] else [s[0]]) + Digits(s[1..])
  }

  lemma {:induction false} DigitsAreHex(s: bytes)
    requires forall i :: 0 <= i < |s| ==> s[i] == '_' || DigitValue(s[i]) >= 0
    ensures AllHex(Digits(s))
  {
    if s == [] {
    } else {
      DigitsAreHex(s[1..]);
    }
  }

  lemma {:induction false} DigitsExactly(s: bytes, acc: nat)
    ensures ParseDigits(s, acc).Some? <==> Separated(s)
    ensures Separated(s) ==> AllHex(Digits(s)) && ParseDigits(s, acc) == Some(HexFold(Digits(s), acc))
  {
    hide Separated, Digits, HexFold, AllHex;
    FirstDigit(s);
    if s == [] || DigitValue(s[0]) < 0 {
    } else {
      var v := acc * 16 + DigitValue(s[0]);
      var k := if |s| >= 2 && s[1] == '_' then 2 else 1;
      DigitsFrom(s, k);
      if Separated(s) { AllDigits(s); }
      FoldFirst(s[0], Digits(s[k..]), acc);
      if |s| > 1 {
        SeparatedAfter(s, k);
        DigitsExactly(s[k..], v);
      } else {
        assert s[1..] == [];
        NoDigits(v);
      }
    }
  }

  lemma AllDigits(s: bytes)
    requires Separated(s)
    ensures AllHex(Digits(s))
  {
    DigitsAreHex(s);
  }

  lemma FirstDigit(s: bytes)
    ensures s == [] || DigitValue(s[0]) < 0 ==> !Separated(s)
    ensures |s| == 1 && DigitValue(s[0]) >= 0 ==> Separated(s)
  {
  }

  lemma DigitsFrom(s: bytes, k: nat)
    requires s != [] && DigitValue(s[0]) >= 0 && k == if |s| >= 2 && s[1] == '_' then 2 else 1
    ensures Digits(s) == [s[0]] + Digits(s[k..])
  {
    hide DigitValue, Digits;
    UnderscoreIsNoDigit();
    DigitsCons(s);
    if k == 2 {
      DigitsCons(s[1..]);
      assert s[1..][1..] == s[2..];
    }
  }

  lemma UnderscoreIsNoDigit()
    ensures DigitValue('_') < 0
  {
  }

  lemma DigitsCons(s: bytes)
    requires s != []
    ensures Digits(s) == (if s[0] == '_' then [] else [s[0]]) + Digits(s[1..])
  {
  }

  lemma FoldFirst(c: char, s: bytes, acc: nat)
    requires DigitValue(c) >= 0
    ensures AllHex([c] + s) ==> AllHex(s) && HexFold([c] + s, acc) == HexFold(s, acc * 16 + DigitValue(c))
  {
    assert ([c] + s)[1..] == s;
    assert forall i :: 0 <= i < |s| ==> s[i] == ([c] + s)[i + 1];
  }

  lemma NoDigits(acc: nat)
    ensures Digits([]) == [] && AllHex([]) && HexFold([], acc) == acc
  {
  }

  lemma SeparatedAfter(s: bytes, k: nat)
    requires 1 <= k <= 2 && k <= |s| && |s| >= 2 && DigitValue(s[0]) >= 0 && (k == 2 <==> s[1] == '_')
    ensures Separated(s) <==> Separated(s[k..])
  {
    var t := s[k..];
    assert forall i :: 0 <= i < |t| ==> t[i] == s[i + k];
    if Separated(t) {
      forall i | 0 < i < |s|
        ensures s[i - 1] != '_' || s[i] != '_'
      {
        if i > k { assert t[i - k - 1] != '_' || t[i - k] != '_'; }
      }
      forall i | 0 <= i < |s|
        ensures s[i] == '_' || DigitValue(s[i]) >= 0
      {
        if i >= k { assert t[i - k] == '_' || DigitValue(t[i - k]) >= 0; }
      }
    }
  }

  /** An optional sign, an optional `0x` with or without an underscore behind it, and digits. */
  ghost predicate Denotes(t: bytes, sign: bytes, prefix: bytes, digits: bytes, n: int) {
    && sign in {"", "+", "-"} && prefix in {"", "0x", "0X", "0x_", "0X_"} && Separated(digits)
    && t == sign + prefix + digits
    && AllHex(Digits(digits)) && n == if sign == "-" then 0 - HexValue(Digits(digits)) else HexValue(Digits(digits))
  }

  predicate HasPrefix(t: bytes) {
    |t| >= 2 && t[0] == '0' && (t[1] == 'x' || t[1] == 'X')
  }

  lemma MagnitudeDenoted(t: bytes) returns (prefix: bytes, digits: bytes)
    requires ParseMagnitude(t).Some?
    ensures prefix in {"", "0x", "0X", "0x_", "0X_"} && Separated(digits) && t == prefix + digits
    ensures AllHex(Digits(digits)) && ParseMagnitude(t) == Some(HexValue(Digits(digits)))
  {
    var k := if HasPrefix(t) then (if |t| >= 3 && t[2] == '_' then 3 else 2) else 0;
    prefix, digits := t[..k], t[k..];
    DigitsExactly(digits, 0);
    hide ParseDigits;
    if Separated(digits) { HexFoldValue(Digits(digits)); }
    assert k == 2 ==> prefix == [t[0], t[1]];
    assert k == 3 ==> prefix == [t[0], t[1], t[2]];
    assert t[0..] == t;
  }

  lemma NoPrefix(digits: bytes)
    requires Separated(digits)
    ensures !HasPrefix(digits) && digits[0] != '_'
  {
  }

  lemma MagnitudeOfDenoted(prefix: bytes, digits: bytes)
    requires prefix in {"", "0x", "0X", "0x_", "0X_"} && Separated(digits)
    ensures AllHex(Digits(digits)) && ParseMagnitude(prefix + digits) == Some(HexValue(Digits(digits)))
  {
    var t, k := prefix + digits, |prefix|;
    DigitsExactly(digits, 0);
    HexFoldValue(Digits(digits));
    NoPrefix(digits);
    hide ParseDigits, Separated, HexValue, HexFold, Digits, AllHex;
    assert t[k..] == digits;
    if k == 0 {
      assert t == digits;
    } else if k == 2 {
      assert t[0] == prefix[0] && t[1] == prefix[1] && (|t| > 2 ==> t[2] == digits[0]);
    } else {
      assert t[0] == prefix[0] && t[1] == prefix[1] && t[2] == prefix[2];
    }
  }

  lemma Int16Exactly(t: bytes, n: int)
    ensures ParseInt16(t) == Some(n) <==> exists sign, prefix, digits :: Denotes(t, sign, prefix, digits, n)
  {
    hide ParseInt16, Denotes;
    if ParseInt16(t) == Some(n) {
      Int16Denoted(t, n);
    }
    forall sign, prefix, digits | Denotes(t, sign, prefix, digits, n)
      ensures ParseInt16(t) == Some(n)
    {
      Int16OfDenoted(t, sign, prefix, digits, n);
    }
  }

  /** What `int()` makes of a sign and a magnitude. */
  lemma SignedMagnitude(sign: bytes, rest: bytes)
    requires sign in {"", "+", "-"} && (sign == "" ==> rest == [] || (rest[0] != '+' && rest[0] != '-'))
    ensures var m := ParseMagnitude(rest);
            ParseInt16(sign + rest)
            == if m.None? then None else Some(if sign == "-" then 0 - m.value else m.value)
  {
    hide ParseMagnitude;
    if sign == "" {
      assert sign + rest == rest;
    } else {
      assert (sign + rest)[0] == sign[0] && (sign + rest)[1..] == rest;
    }
  }

  lemma Int16Denoted(t: bytes, n: int)
    requires ParseInt16(t) == Some(n)
    ensures exists sign, prefix, digits :: Denotes(t, sign, prefix, digits, n)
  {
    hide ParseMagnitude, Separated, HexValue, AllHex, Digits, ParseInt16;
    var signed := t != [] && (t[0] == '-' || t[0] == '+');
    var sign, rest := if signed then [t[0]] else "", if signed then t[1..] else t;
    assert sign in {"", "+", "-"} && t == sign + rest;
    SignedMagnitude(sign, rest);
    var prefix, digits := MagnitudeDenoted(rest);
    Assoc(sign, prefix, digits);
    assert Denotes(t, sign, prefix, digits, n);
  }

  lemma Int16OfDenoted(t: bytes, sign: bytes, prefix: bytes, digits: bytes, n: int)
    requires Denotes(t, sign, prefix, digits, n)
    ensures ParseInt16(t) == Some(n)
  {
    MagnitudeOfDenoted(prefix, digits);
    DigitFirst(digits);
    hide ParseMagnitude, Separated, HexValue, AllHex, Digits, ParseInt16;
    FirstOfNumber(prefix, digits);
    SignedMagnitude(sign, prefix + digits);
    Assoc(sign, prefix, digits);
  }

  lemma FirstOfNumber(prefix: bytes, digits: bytes)
    requires prefix in {"", "0x", "0X", "0x_", "0X_"} && Separated(digits)
    ensures prefix + digits != [] && (prefix + digits)[0] != '+' && (prefix + digits)[0] != '-'
  {
    DigitFirst(digits);
    hide Separated;
    assert (prefix + digits)[0] == if prefix == "" then digits[0] else prefix[0];
  }

  lemma DigitFirst(digits: bytes)
    requires Separated(digits)
    ensures digits != [] && digits[0] != '-' && digits[0] != '+'
    ensures !IsSpace(digits[0]) && !IsSpace(digits[|digits| - 1])
  {
    assert DigitValue(digits[0]) >= 0 && DigitValue(digits[|digits| - 1]) >= 0;
  }

  // ---- the whole line ----------------------------------------------------------------------

  /** `t` with whitespace around it, and possibly a semicolon and anything behind that. */
  ghost predicate LineWith(line: bytes, before: bytes, t: bytes, after: bytes, ext: bytes) {
    && Blank(before) && Blank(after)
    && line == before + t + after + ext && (ext == [] || ext[0] == ';')
    && ';' !in t
  }

  lemma {:induction false} StripIs(before: bytes, t: bytes, after: bytes)
    requires Blank(before) && Blank(after)
    requires t != [] && !IsSpace(t[0]) && !IsSpace(t[|t| - 1])
    ensures StripBytes(before + t + after) == t
    decreases |before| + |after|
  {
    var s := before + t + after;
    if before != [] {
      assert s[0] == before[0] && s[1..] == before[1..] + t + after;
      StripIs(before[1..], t, after);
    } else if after != [] {
      assert s[0] == t[0] && s[|s| - 1] == after[|after| - 1];
      assert s[..|s| - 1] == before + t + after[..|after| - 1];
      StripIs(before, t, after[..|after| - 1]);
    } else {
      assert s == t;
    }
  }

  predicate Blank(s: bytes) {
    forall i :: 0 <= i < |s| ==> IsSpace(s[i])
  }

  lemma {:induction false} StripLeaves(s: bytes) returns (before: bytes, after: bytes)
    ensures s == before + StripBytes(s) + after && Blank(before) && Blank(after)
    decreases |s|
  {
    if s != [] && IsSpace(s[0]) {
      var b, a := StripLeaves(s[1..]);
      before, after := [s[0]] + b, a;
      assert s == [s[0]] + s[1..];
      assert s == [s[0]] + (b + StripBytes(s[1..]) + a);
    } else if s != [] && IsSpace(s[|s| - 1]) {
      var b, a := StripLeaves(s[..|s| - 1]);
      before, after := b, a + [s[|s| - 1]];
      assert s == s[..|s| - 1] + [s[|s| - 1]];
      assert s == b + StripBytes(s[..|s| - 1]) + a + [s[|s| - 1]];
    } else {
      before, after := [], [];
      assert s == [] + s + [];
    }
  }

  lemma BeforeFirstSemicolon(a: bytes, ext: bytes)
    requires ';' !in a && (ext == [] || ext[0] == ';')
    ensures BeforeSemicolon(a + ext) == a
  {
    if ext == [] {
      assert a + ext == a;
      NoSemicolon(a);
    } else {
      ClearWithoutHead(a, ";");
      assert a + ext == a + ";" + ext[1..];
      FindAfterClear(a, ";", ext[1..]);
    }
  }

  lemma Semicolon(line: bytes) returns (a: bytes, ext: bytes)
    ensures line == a + ext && ';' !in a && (ext == [] || ext[0] == ';') && BeforeSemicolon(line) == a
  {
    var k := Find(line, ";");
    a, ext := BeforeSemicolon(line), if k < 0 then [] else line[k..];
    if k >= 0 { AtChar(line, ";", k, 0); }
    forall i | 0 <= i < |a|
      ensures a[i] != ';'
    {
      assert line[i..i + 1] == [line[i]] && !At(line, ";", i);
    }
  }

  /** The number a line stands for, without extension and surrounding whitespace. */
  ghost predicate SizeOf(line: bytes, n: int) {
    exists before, t, after, ext, sign, prefix, digits ::
      LineWith(line, before, t, after, ext) && Denotes(t, sign, prefix, digits, n)
  }

  /** A size line is read as a number exactly if it stands for it. */
  lemma SizeExactly(line: bytes, n: int)
    ensures ParseSize(line) == Some(n) <==> SizeOf(line, n)
  {
    hide BeforeSemicolon, ParseInt16, StripBytes, Denotes;
    if ParseSize(line) == Some(n) {
      var a, ext := Semicolon(line);
      var before, after := StripLeaves(a);
      var t := StripBytes(a);
      forall i | 0 <= i < |t|
        ensures t[i] != ';'
      {
        assert a[|before| + i] == t[i];
      }
      assert LineWith(line, before, t, after, ext);
      Int16Exactly(t, n);
    }
    forall before, t, after, ext, sign, prefix, digits |
      LineWith(line, before, t, after, ext) && Denotes(t, sign, prefix, digits, n)
      ensures ParseSize(line) == Some(n)
    {
      var a := before + t + after;
      NoSemicolonAround(before, t, after);
      BeforeFirstSemicolon(a, ext);
      EndsOfNumber(t, sign, prefix, digits, n);
      StripIs(before, t, after);
      Int16Exactly(t, n);
    }
  }

  lemma NoSemicolonAround(before: bytes, t: bytes, after: bytes)
    requires Blank(before) && Blank(after) && ';' !in t
    ensures ';' !in before + t + after
  {
  }

  lemma EndsOfNumber(t: bytes, sign: bytes, prefix: bytes, digits: bytes, n: int)
    requires Denotes(t, sign, prefix, digits, n)
    ensures t != [] && !IsSpace(t[0]) && !IsSpace(t[|t| - 1])
  {
    DigitFirst(digits);
    assert t[|t| - 1] == digits[|digits| - 1];
    if sign != "" {
      assert t[0] == sign[0];
    } else if prefix != "" {
      assert t[0] == '0';
    } else {
      assert t == digits;
    }
  }

  /** A stream whose next line stands for no number is refused with 400, by both decoders. */
  lemma BadSizeRefused(line: bytes, rest: bytes, total: int, body: bytes, max: nat, ending: Error)
    requires '\r' !in line && '\n' !in line && |line| + 2 <= LINE_LIMIT + 1
    requires forall n :: !SizeOf(line, n)
    ensures Decode(line + CRLF + rest, total, body, max, ending) == Failed(Http(400))
    ensures AsyncDecode(line + CRLF + rest, total, body, max, ending) == Failed(Http(400))
  {
    hide ParseSize, SizeOf;
    var s := line + CRLF + rest;
    ClearWithoutHead(line, CRLF);
    FindAfterClear(line, CRLF, rest);
    assert s[..|line|] == line && s[|line| + 2..] == rest;
    if ParseSize(line).Some? {
      SizeExactly(line, ParseSize(line).value);
    }
    ReadPlainLine(s, ending);
  }
}
