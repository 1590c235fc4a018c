/** With which status `parse_header_block` (sovereign/parser.py:96-141) refuses a block: each is an equivalence that
    speaks of the block's lines only. */
module HeaderRefusals {
  import opened Errors
  import opened Text
  import opened HeaderBlock

  /** A line with a name and a value like those of a field, one of them over its limit. */
  ghost predicate Oversized(line: bytes, config: ServerConfig) {
    && line != [] && line[0] != ' ' && line[0] != '\t'
    && exists k :: Colon(line, k) && TokenMatch(Lower(Trim(line[..k]))) &&
         (|Trim(line[..k])| > config.maxHeaderName || |Trim(line[k + 1..])| > config.maxHeaderValue)
  }

  lemma OversizedExactly(line: bytes, config: ServerConfig)
    ensures LineStatus(line, config) == 431 <==> Oversized(line, config)
    ensures LineStatus(line, config) in {0, 400, 431}
  {
    hide Trim, Find, Colon;
    if line != [] {
      var k := Find(line, ":");
      assert line[0] in " \t" <==> line[0] == ' ' || line[0] == '\t';
      assert !TokenMatch([]);
      ColonFound(line, k);
      forall j | Colon(line, j)
        ensures j == k
      {
        ColonFound(line, j);
      }
    }
  }

  /** Line `i` is the first that is not taken. */
  ghost predicate TakenBefore(f: Fields, lines: seq<bytes>, i: nat, config: ServerConfig)
    requires i <= |lines|
  {
    AllFieldLines(lines[..i], config) && FramingOnce(f.pairs + Pairs(lines[..i]))
  }

  /** The field lines are refused with 431 exactly for an oversized one that comes before any other fault. */
  lemma {:induction false} FieldsRefused(f: Fields, lines: seq<bytes>, config: ServerConfig)
    requires Combined(f.headers, f.pairs) && FramingOnce(f.pairs)
    ensures var r := AddLines(f, lines, config);
            && (r == Err(Http(431)) <==>
                exists i :: 0 <= i < |lines| && TakenBefore(f, lines, i, config) && Oversized(lines[i], config))
            && (r.Err? ==> r.error == Http(400) || r.error == Http(431))
    decreases |lines|
  {
    hide Combined, LineStatus, LegalLine, Oversized, Field, FramingOnce, Merge, Pairs;
    if lines == [] {
    } else {
      var line, rest := lines[0], lines[1..];
      LegalExactly(line, config);
      OversizedExactly(line, config);
      TakenAtStart(f, lines, config);
      forall i | 0 < i < |lines|
        ensures TakenBefore(f, lines, i, config) ==> LegalLine(line, config)
        ensures TakenBefore(f, lines, i, config) && AddLine(f, line, config).Ok? ==>
                  TakenBefore(AddLine(f, line, config).value, rest, i - 1, config)
        ensures TakenBefore(f, lines, i, config) ==> AddLine(f, line, config).Ok?
        ensures AddLine(f, line, config).Ok? && TakenBefore(AddLine(f, line, config).value, rest, i - 1, config) ==>
                  TakenBefore(f, lines, i, config)
      {
        TakenLater(f, lines, i, config);
      }
      assert forall i :: 1 <= i < |lines| ==> lines[i] == rest[i - 1];
      var added := AddLine(f, line, config);
      if added.Ok? {
        AddKeeps(f, line, config);
        FieldsRefused(added.value, rest, config);
        var r := AddLines(added.value, rest, config);
        if r == Err(Http(431)) {
          var i :| 0 <= i < |rest| && TakenBefore(added.value, rest, i, config) && Oversized(rest[i], config);
          assert TakenBefore(f, lines, i + 1, config) && Oversized(lines[i + 1], config);
        }
        assert !Oversized(line, config);
      }
    }
  }

  lemma TakenAtStart(f: Fields, lines: seq<bytes>, config: ServerConfig)
    requires FramingOnce(f.pairs)
    ensures TakenBefore(f, lines, 0, config)
  {
    assert lines[..0] == [] && f.pairs + Pairs([]) == f.pairs;
  }

  lemma AddKeeps(f: Fields, line: bytes, config: ServerConfig)
    requires Combined(f.headers, f.pairs) && FramingOnce(f.pairs) && AddLine(f, line, config).Ok?
    ensures var g := AddLine(f, line, config).value;
            && Combined(g.headers, g.pairs) && FramingOnce(g.pairs)
            && g.pairs == f.pairs + Pairs([line])
  {
    hide Combined, FramingOnce, LineStatus, Field, Values;
    assert Pairs([line]) == (if line == [] then [] else [Field(line)]) by {
      assert [line][1..] == [];
      assert Pairs([]) == [];
    }
    if line != [] {
      AddField(f, line, config);
    } else {
      assert f.pairs + [] == f.pairs;
    }
  }

  lemma TakenLater(f: Fields, lines: seq<bytes>, i: nat, config: ServerConfig)
    requires Combined(f.headers, f.pairs) && FramingOnce(f.pairs) && 0 < i < |lines|
    ensures var added := AddLine(f, lines[0], config);
            TakenBefore(f, lines, i, config) <==>
            LegalLine(lines[0], config) && added.Ok? && TakenBefore(added.value, lines[1..], i - 1, config)
  {
    hide Combined, FramingOnce, LineStatus, LegalLine, Field, Values;
    var line, rest, added := lines[0], lines[1..], AddLine(f, lines[0], config);
    LegalExactly(line, config);
    assert lines[..i] == [line] + rest[..i - 1];
    assert forall j :: 1 <= j < i ==> lines[..i][j] == rest[..i - 1][j - 1];
    assert AllFieldLines(lines[..i], config) <==> LegalLine(line, config) && AllFieldLines(rest[..i - 1], config);
    PairsSplit(line, rest[..i - 1]);
    if added.Ok? {
      AddKeeps(f, line, config);
      assert added.value.pairs + Pairs(rest[..i - 1]) == f.pairs + Pairs(lines[..i]);
    } else if LegalLine(line, config) {
      assert line != [];
      AddField(f, line, config);
      FramingGrows(f.pairs + [Field(line)], Pairs(rest[..i - 1]));
      assert f.pairs + [Field(line)] + Pairs(rest[..i - 1]) == f.pairs + Pairs(lines[..i]);
    }
  }

  lemma PairsSplit(line: bytes, rest: seq<bytes>)
    ensures Pairs([line] + rest) == Pairs([line]) + Pairs(rest)
    ensures Pairs([line]) == if line == [] then [] else [Field(line)]
  {
    assert ([line] + rest)[1..] == rest && [line][1..] == [];
    assert Pairs([]) == [];
  }

  // ---- the whole block ---------------------------------------------------------------------

  /** The method is fine, the version is another one. */
  ghost predicate OtherVersion(line: bytes) {
    exists verb, target, version ::
      LineOf(line, verb, target, version) && TokenMatch(verb) && version != "HTTP/1.1"
  }

  lemma RequestLineRefused(line: bytes, config: ServerConfig)
    ensures RequestLineStatus(line, config) == 414 <==> |line| > config.maxRequestLine && line != []
    ensures RequestLineStatus(line, config) == 505 <==> |line| <= config.maxRequestLine && OtherVersion(line)
    ensures RequestLineStatus(line, config) in {0, 400, 414, 505}
  {
    hide Split, TokenMatch, StartsWith, LineOf;
    var parts := Split(line, " ");
    if |parts| == 3 {
      assert parts == [parts[0], parts[1], parts[2]];
      PartsExactly(line, parts[0], parts[1], parts[2]);
    }
    forall verb, target, version | LineOf(line, verb, target, version)
      ensures parts == [verb, target, version] && line != []
    {
      PartsExactly(line, verb, target, version);
      NotEmpty(line, verb, target, version);
    }
  }

  lemma NotEmpty(line: bytes, verb: bytes, target: bytes, version: bytes)
    requires LineOf(line, verb, target, version)
    ensures line != []
  {
  }

  /** 414 for a request line over the limit; 505 for another version than HTTP/1.1; 431 for too many lines, or for a
      name or value over its limit before any other fault of the fields; and 400 for everything else that is wrong. */
  lemma StatusExactly(raw: bytes, config: ServerConfig)
    requires Find(raw, BLANK) >= 0
    ensures var lines, r := Lines(raw), ParseHead(raw, config);
            && (r == Err(Http(414)) <==> lines[0] != [] && |lines[0]| > config.maxRequestLine)
            && (r == Err(Http(505)) <==> |lines[0]| <= config.maxRequestLine && OtherVersion(lines[0]))
            && (r == Err(Http(431)) <==>
                LegalRequestLine(lines[0], config) &&
                (|lines| - 1 > config.maxHeaders ||
                 exists i :: 1 <= i < |lines| && Oversized(lines[i], config) &&
                   AllFieldLines(lines[1..i], config) && FramingOnce(Pairs(lines[1..i]))))
            && (r.Err? ==> r.error in {Http(400), Http(414), Http(431), Http(505)})
  {
    hide LineStatus, Field, AddLines, Pairs, Lines, LegalLine, LegalRequestLine, FramingOnce, RequestLineStatus,
         OtherVersion, Oversized, AllFieldLines;
    var lines := Lines(raw);
    RequestLineExactly(lines[0], config);
    RequestLineRefused(lines[0], config);
    var start, fields := Fields(map[], []), lines[1..];
    NothingYet();
    FieldsRefused(start, fields, config);
    forall i | 0 <= i < |fields|
      ensures TakenBefore(start, fields, i, config) <==>
              AllFieldLines(lines[1..i + 1], config) && FramingOnce(Pairs(lines[1..i + 1]))
    {
      assert fields[..i] == lines[1..i + 1];
      assert [] + Pairs(fields[..i]) == Pairs(fields[..i]);
    }
    if i :| 1 <= i < |lines| && Oversized(lines[i], config) && AllFieldLines(lines[1..i], config) &&
            FramingOnce(Pairs(lines[1..i])) {
      assert TakenBefore(start, fields, i - 1, config) && fields[i - 1] == lines[i];
    }
    if i :| 0 <= i < |fields| && TakenBefore(start, fields, i, config) && Oversized(fields[i], config) {
      assert fields[i] == lines[i + 1];
    }
  }

  /** Without a blank line, too, the answer is 400. */
  lemma NoBlankRefused(raw: bytes, config: ServerConfig)
    ensures Find(raw, BLANK) < 0 ==> ParseHead(raw, config) == Err(Http(400))
  {
    hide Find;
  }
}
