/** `AsyncBodyReader` of sovereign/async_server.py over an asyncio stream reader. The stream reader already
    hides the pieces, so its state is the unread stream itself. */
module AsyncBodyReaders {
  import opened Errors
  import opened Text
  import opened ChunkedCoding

  class AsyncBodyReader {
    const config: ServerConfig
    const ending: Error
    var data: bytes              // what the stream reader will still deliver

    constructor (config: ServerConfig, data: bytes, ending: Error)
      ensures this.config == config && this.ending == ending && this.data == data
    {
      this.config, this.data, this.ending := config, data, ending;
    }

    /** `readline()`: at the end of the stream the rest counts as a line; an overlong line or a timeout is
        an exception this reader does not translate. */
    method NextLine() returns (r: Result<bytes>)
      modifies this`data
      ensures match ReadLine(old(data), ending)
              case Ok((line, rest)) => r == Ok(line) && data == rest
              case Err(e) => r == Err(e)
    {
      var k := Find(data, "\n");
      if k < 0 {
        if |data| > STREAM_LIMIT || ending != ClientClosed {
          return Err(Crash);
        }
        r := Ok(data);
        data := [];
      } else if k > STREAM_LIMIT {
        r := Err(Crash);
      } else {
        r := Ok(data[..k + 1]);
        data := data[k + 1..];
      }
    }

    method ReadExact(n: int) returns (r: Result<bytes>)
      modifies this`data
      ensures if n < 0 then r == Err(Crash)
              else if n > |old(data)| then r == Err(ending)
              else r == Ok(old(data)[..n]) && data == old(data)[n..]
    {
      if n < 0 {
        return Err(Crash);
      }
      if n > |data| {
        return Err(ending);
      }
      r := Ok(data[..n]);
      data := data[n..];
    }

    method ReadChunkedBody() returns (r: Result<(bytes, int)>)
      modifies this`data
      ensures match AsyncDecode(old(data), 0, [], config.maxBodyBytes, ending)
              case Decoded(body, total, rest) => r == Ok((body, total)) && data == rest
              case Failed(e) => r == Err(e)
              case CutDependent => false
    {
      hide ParseSize, ReadLine, StripLineEnd;
      var chunks: bytes, total := [], 0;
      while true
        invariant AsyncDecode(data, total, chunks, config.maxBodyBytes, ending)
               == AsyncDecode(old(data), 0, [], config.maxBodyBytes, ending)
        decreases |data|
      {
        ghost var s := data;
        var line := NextLine();
        if line.Err? {
          return Err(line.error);
        }
        if line.value == [] {
          return Err(ClientClosed);
        }
        assert |data| < |s| by { ShorterAfterLine(s, ending); }
        ghost var t := data;
        var size := ParseSize(StripLineEnd(line.value));
        if size.None? {
          return Err(Http(400));
        }
        if size.value == 0 {
          var trailer := NextLine();
          if trailer.Err? {
            return Err(trailer.error);
          }
          break;
        }
        total := total + size.value;
        if total > config.maxBodyBytes {
          return Err(Http(413));
        }
        var part := ReadExact(size.value);
        if part.Err? {
          return Err(part.error);
        }
        chunks := chunks + part.value;
        var crlf := ReadExact(2);
        if crlf.Err? {
          return Err(crlf.error);
        }
        assert crlf.value == t[size.value..size.value + 2] && data == t[size.value + 2..];
        if crlf.value != CRLF {
          return Err(Http(400));
        }
      }
      r := Ok((chunks, total));
    }
  }

  lemma ShorterAfterLine(s: bytes, ending: Error)
    ensures match ReadLine(s, ending) case Ok((line, rest)) => |line| + |rest| == |s| case Err(_) => true
  {
  }
}
