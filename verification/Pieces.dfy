/** Searching and taking on a buffer over pieces, as functions: `_read_until` and `read_exact` of
    sovereign/parser.py, and exactly when the way a stream is cut into pieces shows. */
module Pieces {
  import opened Errors
  import opened Text
  import opened Sockets

  function Min(a: int, b: int): int {
    if a <= b then a else b
  }

  predicate AllPieces(pieces: seq<bytes>) {
    forall i :: 0 <= i < |pieces| ==> 0 < |pieces[i]| <= RECV
  }

  /** A reader's buffer, and what `recv` will still deliver, piece by piece. */
  datatype Source = Source(buffer: bytes, pieces: seq<bytes>) {
    /** The bytes the peer has sent that no caller has received yet. */
    function Unread(): bytes {
      buffer + Flatten(pieces)
    }

    /** Between two reads the buffer holds less than one full piece: the last piece read was used in part. */
    predicate Ready() {
      |buffer| < RECV && AllPieces(pieces)
    }
  }

  datatype Got = Got(data: bytes, from: Source)

  /** What a read returns, without the state it leaves behind. */
  function Data(r: Result<Got>): Result<bytes> {
    match r case Ok(got) => Ok(got.data) case Err(e) => Err(e)
  }

  // ---- the search for a marker -------------------------------------------------------------

  function Search(src: Source, marker: bytes, limit: nat, ending: Error): Result<Got>
    decreases |src.pieces|
  {
    var k := Find(src.buffer, marker);
    if k >= 0 then Ok(Got(src.buffer[..k + |marker|], Source(src.buffer[k + |marker|..], src.pieces)))
    else if |src.buffer| > limit then Err(Http(431))
    else if src.pieces == [] then Err(ending)
    else Search(Source(src.buffer + src.pieces[0], src.pieces[1..]), marker, limit, ending)
  }

  /** One round of the search. */
  lemma SearchStep(src: Source, marker: bytes, limit: nat, ending: Error)
    ensures var k, r := Find(src.buffer, marker), Search(src, marker, limit, ending);
            && (k >= 0 ==> var n := k + |marker|;
                           r == Ok(Got(src.buffer[..n], Source(src.buffer[n..], src.pieces))))
            && (k < 0 && |src.buffer| > limit ==> r == Err(Http(431)))
            && (k < 0 && |src.buffer| <= limit && src.pieces == [] ==> r == Err(ending))
            && (k < 0 && |src.buffer| <= limit && src.pieces != [] ==>
                  r == Search(Source(src.buffer + src.pieces[0], src.pieces[1..]), marker, limit, ending))
  {
  }

  /** What the search may answer on a stream, said without the pieces. */
  ghost predicate Searched(s: bytes, marker: bytes, limit: nat, ending: Error, r: Result<bytes>) {
    var k := Find(s, marker);
    match r
    case Ok(data) => k >= 0 && |data| == k + |marker| <= limit + RECV && data == s[..k + |marker|]
    case Err(e) =>
      if e == Http(431) then |s| > limit && (k < 0 || k + |marker| > limit + 1)
      else e == ending && k < 0 && |s| <= limit
  }

  /** The search is determined by the stream up to a window of one piece, conserves the stream, and leaves less
      than one piece in the buffer. */
  lemma {:induction false} SearchIs(src: Source, marker: bytes, limit: nat, ending: Error)
    requires marker != [] && AllPieces(src.pieces) && IsEnding(ending) && |src.buffer| <= limit + RECV
    requires Find(src.buffer, marker) >= 0 ==> |src.buffer| < Find(src.buffer, marker) + |marker| + RECV
    ensures var r := Search(src, marker, limit, ending);
            && Searched(src.Unread(), marker, limit, ending, Data(r))
            && (r.Ok? ==> src.Unread() == r.value.data + r.value.from.Unread() && r.value.from.Ready())
    decreases |src.pieces|
  {
    hide Find, Flatten;
    var buffer, pieces := src.buffer, src.pieces;
    FindPrefix(buffer, Flatten(pieces), marker);
    if Find(buffer, marker) >= 0 {
      var n := Find(buffer, marker) + |marker|;
      assert src.Unread() == buffer[..n] + (buffer[n..] + Flatten(pieces));
      assert src.Unread()[..n] == buffer[..n];
    } else if pieces == [] {
      NoPieces(src);
    } else if |buffer| <= limit {
      OnePiece(src);
      FindPrefix(buffer, pieces[0], marker);
      SearchIs(Source(buffer + pieces[0], pieces[1..]), marker, limit, ending);
    }
  }

  lemma NoPieces(src: Source)
    requires src.pieces == []
    ensures src.Unread() == src.buffer
  {
  }

  lemma OnePiece(src: Source)
    requires src.pieces != []
    ensures src.Unread() == Source(src.buffer + src.pieces[0], src.pieces[1..]).Unread()
  {
    Assoc(src.buffer, src.pieces[0], Flatten(src.pieces[1..]));
  }

  // ---- taking a number of bytes ------------------------------------------------------------

  /** The Python slice bound of `s[:n]`; a negative `n` counts from the end. */
  function SliceEnd(s: bytes, n: int): (e: nat)
    ensures e <= |s|
  {
    if n >= 0 then Min(n, |s|) else if |s| + n >= 0 then |s| + n else 0
  }

  function TakeFrom(src: Source, n: int, ending: Error): Result<Got>
    decreases |src.pieces|
  {
    if n <= |src.buffer| then
      var e := SliceEnd(src.buffer, n);
      Ok(Got(src.buffer[..e], Source(src.buffer[e..], src.pieces)))
    else if src.pieces == [] then Err(ending)
    else TakeFrom(Source(src.buffer + src.pieces[0], src.pieces[1..]), n, ending)
  }

  lemma TakeStep(src: Source, n: int, ending: Error)
    ensures n > |src.buffer| && src.pieces != [] ==>
              TakeFrom(src, n, ending) == TakeFrom(Source(src.buffer + src.pieces[0], src.pieces[1..]), n, ending)
    ensures n > |src.buffer| && src.pieces == [] ==> TakeFrom(src, n, ending) == Err(ending)
    ensures n <= |src.buffer| ==>
              var e := SliceEnd(src.buffer, n);
              TakeFrom(src, n, ending) == Ok(Got(src.buffer[..e], Source(src.buffer[e..], src.pieces)))
  {
  }

  /** The stream is conserved; for `n >= 0` exactly the next `n` bytes are taken, if there are that many. */
  lemma {:induction false} TakeIs(src: Source, n: int, ending: Error)
    requires AllPieces(src.pieces) && |src.buffer| < RECV + (if n >= 0 then n else 0)
    ensures var r, s := TakeFrom(src, n, ending), src.Unread();
            && (r.Ok? ==> s == r.value.data + r.value.from.Unread() && r.value.from.Ready())
            && (n >= 0 ==> Data(r) == if n <= |s| then Ok(s[..n]) else Err(ending))
            && (n < 0 ==> Data(r) == Ok(src.buffer[..SliceEnd(src.buffer, n)]))
    decreases |src.pieces|
  {
    hide Flatten;
    var buffer, pieces := src.buffer, src.pieces;
    if n <= |buffer| {
      var e := SliceEnd(buffer, n);
      assert src.Unread() == buffer[..e] + (buffer[e..] + Flatten(pieces));
      if n >= 0 { assert src.Unread()[..n] == buffer[..n]; }
    } else if pieces == [] {
      NoPieces(src);
    } else {
      OnePiece(src);
      TakeIs(Source(buffer + pieces[0], pieces[1..]), n, ending);
    }
  }

  // ---- two ways of cutting -----------------------------------------------------------------

  /** One way of cutting the stream. */
  predicate Cuts(pieces: seq<bytes>, s: bytes) {
    AllPieces(pieces) && Flatten(pieces) == s
  }

  function Fresh(pieces: seq<bytes>): Source {
    Source([], pieces)
  }

  lemma FreshIs(pieces: seq<bytes>, s: bytes)
    requires Cuts(pieces, s)
    ensures Fresh(pieces).Ready() && Fresh(pieces).Unread() == s
  {
  }

  function Singles(s: bytes): (pieces: seq<bytes>)
    ensures Cuts(pieces, s)
  {
    if s == [] then [] else [[s[0]]] + Singles(s[1..])
  }

  lemma {:induction false} FlattenConcat(x: seq<bytes>, y: seq<bytes>)
    ensures Flatten(x + y) == Flatten(x) + Flatten(y)
  {
    if x == [] {
      assert x + y == y;
    } else {
      assert (x + y)[1..] == x[1..] + y;
      FlattenConcat(x[1..], y);
      Assoc(x[0], Flatten(x[1..]), Flatten(y));
    }
  }

  /** `x` byte by byte, then `piece` in one, then the rest byte by byte. */
  function OnePieceAt(x: bytes, piece: bytes, y: bytes): (pieces: seq<bytes>)
    requires 0 < |piece| <= RECV
    ensures Cuts(pieces, x + piece + y)
  {
    var back := [piece] + Singles(y);
    FlattenConcat(Singles(x), back);
    assert back[1..] == Singles(y);
    Assoc(x, piece, y);
    Singles(x) + back
  }

  /** Reading byte by byte gets to the end of a short stretch without the marker. */
  lemma {:induction false} SearchThrough(buffer: bytes, x: bytes, more: seq<bytes>, marker: bytes, limit: nat,
                                         ending: Error)
    requires Find(buffer + x, marker) < 0 && |buffer| + |x| <= limit + 1
    ensures Search(Source(buffer, Singles(x) + more), marker, limit, ending)
         == Search(Source(buffer + x, more), marker, limit, ending)
    decreases |x|
  {
    hide Find, Search, Cuts;
    if x == [] {
      assert buffer + x == buffer && Singles(x) + more == more;
    } else {
      FindPrefix(buffer, x, marker);
      assert (Singles(x) + more)[0] == [x[0]] && (Singles(x) + more)[1..] == Singles(x[1..]) + more;
      SearchStep(Source(buffer, Singles(x) + more), marker, limit, ending);
      assert buffer + [x[0]] + x[1..] == buffer + x;
      SearchThrough(buffer + [x[0]], x[1..], more, marker, limit, ending);
    }
  }

  /** The search on a stream whose marker ends inside one piece after a stretch read byte by byte. */
  lemma SearchInPiece(x: bytes, piece: bytes, y: bytes, marker: bytes, limit: nat, ending: Error)
    requires |x| <= limit && 0 < |piece| <= RECV && Find(x, marker) < 0 && Find(x + piece, marker) >= 0
    ensures var n := Find(x + piece, marker) + |marker|;
            Search(Fresh(OnePieceAt(x, piece, y)), marker, limit, ending) ==
            Ok(Got((x + piece)[..n], Source((x + piece)[n..], Singles(y))))
  {
    hide Find, Cuts;
    var back := [piece] + Singles(y);
    assert back[1..] == Singles(y) && [] + x == x;
    hide Singles;
    SearchThrough([], x, back, marker, limit, ending);
    SearchStep(Source(x, back), marker, limit, ending);
    SearchStep(Source(x + piece, Singles(y)), marker, limit, ending);
  }

  // ---- when the pieces matter for a search -------------------------------------------------

  /** The marker ends between `limit + 1` bytes and one piece beyond the limit. */
  ghost predicate InWindow(s: bytes, marker: bytes, limit: nat) {
    var k := Find(s, marker);
    k >= 0 && limit + 1 < k + |marker| <= limit + RECV
  }

  /** There it is refused if the stream comes byte by byte, */
  lemma SearchRefuses(s: bytes, marker: bytes, limit: nat, ending: Error)
    requires InWindow(s, marker, limit)
    ensures Search(Fresh(Singles(s)), marker, limit, ending) == Err(Http(431))
  {
    hide Find;
    var x, y := s[..limit + 1], s[limit + 1..];
    assert s == x + y && [] + x == x;
    FindPrefix(x, y, marker);
    SinglesConcat(x, y);
    SearchThrough([], x, Singles(y), marker, limit, ending);
  }

  lemma {:induction false} SinglesConcat(x: bytes, y: bytes)
    ensures Singles(x + y) == Singles(x) + Singles(y)
  {
    if x == [] {
      assert x + y == y;
    } else {
      assert (x + y)[1..] == x[1..] + y;
      SinglesConcat(x[1..], y);
    }
  }

  /** and found if a full piece comes last. */
  lemma SearchFinds(s: bytes, marker: bytes, limit: nat, ending: Error) returns (pieces: seq<bytes>)
    requires InWindow(s, marker, limit)
    ensures Cuts(pieces, s) && Search(Fresh(pieces), marker, limit, ending).Ok?
  {
    hide Find;
    var end := Min(|s|, limit + RECV);
    var x, piece, y := s[..limit], s[limit..end], s[end..];
    assert x + piece == s[..end] && s == s[..end] + y && s == x + (piece + y);
    FindPrefix(x, piece + y, marker);
    FindPrefix(s[..end], y, marker);
    FoundInPrefix(s, marker, end);
    SearchInPiece(x, piece, y, marker, limit, ending);
    pieces := OnePieceAt(x, piece, y);
  }

  lemma FoundInPrefix(s: bytes, marker: bytes, end: nat)
    requires 0 <= Find(s, marker) && Find(s, marker) + |marker| <= end <= |s|
    ensures Find(s[..end], marker) == Find(s, marker)
  {
    var k := Find(s, marker);
    assert s[..end][k..k + |marker|] == s[k..k + |marker|];
    assert At(s[..end], marker, k);
    FindPrefix(s[..end], s[end..], marker);
    assert s == s[..end] + s[end..];
  }

  /** Two ways of cutting one stream can make the search answer differently exactly when the marker ends in that
      window. */
  lemma PiecesMatterExactly(s: bytes, marker: bytes, limit: nat, ending: Error)
    requires marker != [] && IsEnding(ending)
    ensures InWindow(s, marker, limit) <==>
            exists p, q :: Cuts(p, s) && Cuts(q, s) &&
              Data(Search(Fresh(p), marker, limit, ending)) != Data(Search(Fresh(q), marker, limit, ending))
  {
    hide Find, Search, Cuts;
    if InWindow(s, marker, limit) {
      SearchRefuses(s, marker, limit, ending);
      var p := SearchFinds(s, marker, limit, ending);
      assert Cuts(Singles(s), s) && Cuts(p, s);
    } else {
      forall p, q | Cuts(p, s) && Cuts(q, s)
        ensures Data(Search(Fresh(p), marker, limit, ending)) == Data(Search(Fresh(q), marker, limit, ending))
      {
        FreshSearch(p, s, marker, limit, ending);
        FreshSearch(q, s, marker, limit, ending);
      }
    }
  }

  lemma FreshSearch(pieces: seq<bytes>, s: bytes, marker: bytes, limit: nat, ending: Error)
    requires Cuts(pieces, s) && marker != [] && IsEnding(ending)
    ensures var r := Search(Fresh(pieces), marker, limit, ending);
            && Searched(s, marker, limit, ending, Data(r))
            && (r.Ok? ==> s == r.value.data + r.value.from.Unread() && r.value.from.Ready())
  {
    hide Find, Search;
    FreshIs(pieces, s);
    NotInEmpty(marker);
    SearchIs(Fresh(pieces), marker, limit, ending);
  }

  lemma NotInEmpty(marker: bytes)
    requires marker != []
    ensures Find([], marker) < 0
  {
  }
}
