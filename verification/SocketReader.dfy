/** `SocketReader` of sovereign/parser.py: a growable buffer over a socket that delivers the peer's bytes
    in arbitrary pieces. Every contract speaks of the unread stream, never of the pieces. */
module SocketReaders {
  import opened Errors
  import opened Text
  import opened ChunkedCoding
  import opened Sockets
  import opened Pieces
  import opened ChunkedPieces

  /** A request body: kept in memory or spooled to disk, by size. */
  datatype Body = InMemory(content: bytes) | Spooled(content: bytes)

  function MakeBody(content: bytes, size: int, config: ServerConfig): Body {
    if size <= config.maxMemoryBody then InMemory(content) else Spooled(content)
  }

  class SocketReader {
    const config: ServerConfig
    const ending: Error           // what `recv` raises once the peer's bytes are used up
    var buffer: bytes
    var pieces: seq<bytes>        // what `recv` will deliver, piece by piece

    ghost predicate Valid()
      reads this
    {
      IsEnding(ending) && State().Ready()
    }

    ghost function State(): Source
      reads this
    {
      Source(buffer, pieces)
    }

    /** The bytes the peer has sent that no caller has received yet. */
    ghost function Unread(): bytes
      reads this
    {
      State().Unread()
    }

    constructor (config: ServerConfig, pieces: seq<bytes>, ending: Error)
      requires IsEnding(ending) && AllPieces(pieces)
      ensures Valid() && State() == Fresh(pieces) && Unread() == Flatten(pieces)
      ensures this.config == config && this.ending == ending
    {
      this.config, this.pieces, this.ending, buffer := config, pieces, ending, [];
    }

    method RecvSome() returns (r: Result<bytes>)
      requires AllPieces(pieces)
      modifies this`pieces
      ensures AllPieces(pieces)
      ensures if old(pieces) == [] then r == Err(ending) && pieces == []
              else r == Ok(old(pieces)[0]) && pieces == old(pieces)[1..]
      ensures old(Flatten(pieces)) == (if r.Ok? then r.value + Flatten(pieces) else [])
      ensures r.Err? ==> Flatten(pieces) == []
    {
      if pieces == [] {
        return Err(ending);
      }
      r := Ok(pieces[0]);
      pieces := pieces[1..];
    }

    /** Cuts the stream right after the first marker. A marker that ends within `limit + 1` bytes is found and one
        that ends beyond `limit + RECV` is refused, whatever the pieces. A failed search leaves the stream as it
        was, in a buffer that may have grown beyond what a valid reader holds; the connection is given up then. */
    method ReadUntil(marker: bytes, limit: nat) returns (r: Result<bytes>)
      requires Valid() && marker != []
      modifies this`buffer, this`pieces
      ensures match Search(old(State()), marker, limit, ending)
              case Ok(got) => r == Ok(got.data) && State() == got.from
              case Err(e) => r == Err(e)
      ensures Searched(old(Unread()), marker, limit, ending, r)
      ensures r.Ok? ==> Valid() && old(Unread()) == r.value + Unread()
      ensures r.Err? ==> Unread() == old(Unread()) && |buffer| <= limit + RECV && AllPieces(pieces)
    {
      hide Flatten, Search, Find;
      ghost var stream := Unread();
      SearchIs(State(), marker, limit, ending);
      while Find(buffer, marker) < 0
        invariant IsEnding(ending) && AllPieces(pieces) && Unread() == stream
        invariant |buffer| <= limit + RECV
        invariant Search(State(), marker, limit, ending) == Search(old(State()), marker, limit, ending)
        decreases |pieces|
      {
        SearchStep(State(), marker, limit, ending);
        if |buffer| > limit {
          return Err(Http(431));
        }
        var some := RecvSome();
        if some.Err? {
          return some;
        }
        Assoc(buffer, some.value, Flatten(pieces));
        buffer := buffer + some.value;
      }
      SearchStep(State(), marker, limit, ending);
      var idx := Find(buffer, marker) + |marker|;
      r := Ok(buffer[..idx]);
      buffer := buffer[idx..];
    }

    /** Takes exactly `n` bytes off the stream, or fails having used it up. A negative `n`, which a chunk
        size line can produce, cuts the buffer by Python's slice rules and so depends on the pieces. */
    method ReadExact(n: int) returns (r: Result<bytes>)
      requires Valid()
      modifies this`buffer, this`pieces
      ensures match TakeFrom(old(State()), n, ending)
              case Ok(got) => r == Ok(got.data) && State() == got.from
              case Err(e) => r == Err(e) && buffer == [] && pieces == []
      ensures Valid()
      ensures 0 <= n <= |old(Unread())| ==> r.Ok? && |r.value| == n
      ensures n > |old(Unread())| ==> r == Err(ending)
      ensures r.Ok? ==> old(Unread()) == r.value + Unread()
      ensures n < 0 ==> r == Ok(old(buffer)[..SliceEnd(old(buffer), n)])
      ensures n < 0 ==> buffer == old(buffer)[SliceEnd(old(buffer), n)..] && pieces == old(pieces)
    {
      hide TakeFrom;
      TakeIs(State(), n, ending);
      TakeStep(State(), n, ending);
      hide Flatten, Source.Unread;
      var take := SliceEnd(buffer, Min(n, |buffer|));
      var out := buffer[..take];
      buffer := buffer[take..];
      assert out + buffer == old(buffer);
      while |out| < n
        invariant Valid()
        invariant n >= 0 ==> |out| <= n && (|out| < n ==> buffer == [])
        invariant n < 0 ==> out == old(buffer)[..take] && buffer == old(buffer)[take..] && pieces == old(pieces)
        invariant TakeFrom(Source(out + buffer, pieces), n, ending) == TakeFrom(old(State()), n, ending)
        decreases |pieces|
      {
        TakeStep(Source(out, pieces), n, ending);
        assert out + buffer == out;
        var chunk := RecvSome();
        if chunk.Err? {
          return chunk;
        }
        var need := Min(n - |out|, |chunk.value|);
        ghost var before := out;
        out := out + chunk.value[..need];
        if |chunk.value| > need {
          buffer := buffer + chunk.value[need..];
        }
        assert out + buffer == before + chunk.value;
      }
      if n >= 0 {
        TakeStep(Source(out + buffer, pieces), n, ending);
        assert (out + buffer)[..n] == out && (out + buffer)[n..] == buffer;
      }
      r := Ok(out);
    }

    /** A body of declared length; large bodies are moved to the spool 64 KiB at a time. */
    method ReadExactBody(length: nat) returns (r: Result<Body>)
      requires Valid()
      modifies this`buffer, this`pieces
      ensures Valid()
      ensures if length > config.maxBodyBytes then r == Err(Http(413))
              else if length > |old(Unread())| then r == Err(ending)
              else r == Ok(MakeBody(old(Unread())[..length], length, config)) && Unread() == old(Unread())[length..]
    {
      hide Flatten, Source.Unread, TakeFrom;
      if length > config.maxBodyBytes {
        return Err(Http(413));
      }
      if length <= config.maxMemoryBody {
        var whole := ReadExact(length);
        return match whole case Ok(b) => Ok(InMemory(b)) case Err(e) => Err(e);
      }
      ghost var stream := Unread();
      var spool := [];
      var remaining := length;
      while remaining > 0
        invariant Valid() && remaining + |spool| == length && remaining >= 0
        invariant spool + Unread() == stream
      {
        var part := ReadExact(Min(65536, remaining));
        if part.Err? {
          return Err(part.error);
        }
        Assoc(spool, part.value, Unread());
        spool := spool + part.value;
        remaining := remaining - |part.value|;
      }
      r := Ok(Spooled(spool));
    }

    /** The chunked decoder. It computes `DecodeCut` on buffer and pieces; whenever the answer does not depend on
        the cut, that is `Decode` on the unread stream, and what follows the body stays unread. */
    method ReadChunkedBody() returns (r: Result<(Body, int)>)
      requires Valid()
      modifies this`buffer, this`pieces
      ensures match DecodeCut(old(State()), 0, [], config.maxBodyBytes, ending)
              case Ok(ch) => r == Ok((MakeBody(ch.body, ch.total, config), ch.total)) && State() == ch.from && Valid()
              case Err(e) => r == Err(e)
      ensures match Decode(old(Unread()), 0, [], config.maxBodyBytes, ending)
              case Decoded(body, total, rest) => r == Ok((MakeBody(body, total, config), total)) && Unread() == rest
              case Failed(e) => r == Err(e)
              case CutDependent => true
    {
      hide ParseSize, Find, Search, TakeFrom, Decode, Flatten;
      CutDecodes(State(), 0, [], config.maxBodyBytes, ending);
      hide Source.Unread, Searched, SliceEnd, TakeData;
      var spool: bytes, total := [], 0;
      while true
        invariant Valid() && total <= config.maxBodyBytes
        invariant DecodeCut(State(), total, spool, config.maxBodyBytes, ending)
               == DecodeCut(old(State()), 0, [], config.maxBodyBytes, ending)
        decreases |Unread()|
      {
        var line := ReadUntil(CRLF, LINE_LIMIT);
        if line.Err? {
          return Err(line.error);
        }
        var size := ParseSize(line.value[..|line.value| - 2]);
        if size.None? {
          return Err(Http(400));
        }
        if size.value == 0 {
          var trailer := ReadUntil(CRLF, LINE_LIMIT);
          if trailer.Err? {
            return Err(trailer.error);
          }
          break;
        }
        total := total + size.value;
        if total > config.maxBodyBytes {
          return Err(Http(413));
        }
        var data := ReadExact(size.value);
        if data.Err? {
          return Err(data.error);
        }
        spool := spool + data.value;
        var crlf := ReadExact(2);
        if crlf.Err? {
          return Err(crlf.error);
        }
        if crlf.value != CRLF {
          return Err(Http(400));
        }
      }
      r := Ok((if total <= config.maxMemoryBody then InMemory(spool) else Spooled(spool), total));
    }
  }
}
