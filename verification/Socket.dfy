/** What a socket delivers: the peer's bytes in nonempty pieces, cut anywhere. */
module Sockets {
  /** The most bytes one `recv` of the request reader returns. */
  const RECV := 4096

  function Flatten<T>(pieces: seq<seq<T>>): seq<T> {
    if pieces == [] then [] else pieces[0] + Flatten(pieces[1..])
  }
}
