/** `WebSocketSession` of sovereign/websocket.py: the object, its bounded send queue and its receive loop. */
module WebSocketSessions {
  import opened Errors
  import opened Sockets
  import opened WebSocketFrames

  /** In-place unmasking of a received payload. */
  method Unmask(payload: array<byte>, mask: bytes)
    requires |mask| == 4
    modifies payload
    ensures payload[..] == Masked(old(payload[..]), mask)
  {
    for i := 0 to payload.Length
      invariant forall j :: 0 <= j < i ==> payload[j] == Xor(old(payload[j]), mask[j % 4])
      invariant forall j :: i <= j < payload.Length ==> payload[j] == old(payload[j])
    {
      payload[i] := Xor(payload[i], mask[i % 4]);
    }
  }

  datatype Answer = Delivered(opcode: opcode, data: bytes) | Raised     // `Raised`: WebSocketClosed

  class WebSocketSession {
    const queueSize: int
    const maxPayload: nat
    var pieces: seq<bytes>            // what the socket will deliver
    var closed: bool
    var sendQueue: seq<Item>
    var lastPong: real
    var pendingPing: Option<bytes>

    ghost predicate Valid()
      reads this
    {
      forall i :: 0 <= i < |pieces| ==> pieces[i] != []
    }

    ghost function Unread(): bytes
      reads this
    {
      Flatten(pieces)
    }

    function State(): Session
      reads this
    {
      Session(closed, sendQueue, queueSize, lastPong, pendingPing)
    }

    constructor (pieces: seq<bytes>, queueSize: int, maxPayload: nat, now: real)
      requires forall i :: 0 <= i < |pieces| ==> pieces[i] != []
      ensures Valid() && Unread() == Flatten(pieces) && this.maxPayload == maxPayload
      ensures State() == Session(false, [], queueSize, now, None)
    {
      this.pieces, this.queueSize, this.maxPayload := pieces, queueSize, maxPayload;
      closed, sendQueue, lastPong, pendingPing := false, [], now, None;
    }

    /** `sock.recv(n)`: some of the next piece, at most `n` bytes; nothing at the end of the stream. */
    method SocketRecv(n: nat) returns (chunk: bytes)
      requires Valid() && n > 0
      modifies this`pieces
      ensures Valid() && |chunk| <= n && old(Unread()) == chunk + Unread()
      ensures chunk == [] ==> Unread() == []
      ensures |Unread()| == |old(Unread())| - |chunk|
    {
      if pieces == [] {
        return [];
      }
      var piece := pieces[0];
      if |piece| <= n {
        chunk := piece;
        pieces := pieces[1..];
      } else {
        chunk := piece[..n];
        assert piece + Flatten(pieces[1..]) == chunk + (piece[n..] + Flatten(pieces[1..]));
        pieces := [piece[n..]] + pieces[1..];
      }
    }

    method ReadExact(n: nat) returns (r: Option<bytes>)
      requires Valid()
      modifies this`pieces
      ensures Valid()
      ensures match Take(old(Unread()), n)
              case None => r == None
              case Some((data, rest)) => r == Some(data) && Unread() == rest
    {
      hide Flatten;
      var buf := [];
      while |buf| < n
        invariant Valid() && |buf| <= n && old(Unread()) == buf + Unread()
        decreases n - |buf|
      {
        var chunk := SocketRecv(n - |buf|);
        if chunk == [] {
          return None;
        }
        assert buf + (chunk + Unread()) == buf + chunk + Unread();
        buf := buf + chunk;
      }
      r := Some(buf);
    }

    method EnqueueFrame(frame: bytes) returns (ok: bool)
      modifies this`closed, this`sendQueue
      ensures (ok, State()) == Enqueue(old(State()), frame)
    {
      if closed {
        return false;
      }
      if queueSize <= 0 || |sendQueue| < queueSize {
        sendQueue := sendQueue + [Outgoing(frame)];
        return true;
      }
      CloseWith(1008, QUEUE_FULL);
      ok := false;
    }

    method CloseWith(code: nat, reason: bytes)
      modifies this`closed, this`sendQueue
      ensures State() == Close(old(State()), code, reason)
    {
      if closed {
        return;
      }
      closed := true;
      if code <= MAX16 {
        PutNoWait(Outgoing(CloseFrame(code, reason)));
      }
      PutNoWait(StopWriter);
    }

    method PutNoWait(item: Item)
      modifies this`sendQueue
      ensures State() == old(State()).PutIfRoom(item)
    {
      if queueSize <= 0 || |sendQueue| < queueSize {
        sendQueue := sendQueue + [item];
      }
    }

    method SendFrame(op: opcode, payload: bytes) returns (ok: bool)
      modifies this`closed, this`sendQueue
      ensures if |payload| > MAX64 then !ok && State() == old(State())
              else (ok, State()) == Enqueue(old(State()), ServerFrame(op, payload))
    {
      var n := |payload|;
      if n > MAX64 {
        return false;
      }
      var header := ServerHeader(op, n);
      ok := EnqueueFrame(header + payload);
    }

    method Ping(payload: bytes) returns (ok: bool)
      modifies this`closed, this`sendQueue, this`pendingPing
      ensures var st := old(State()).(pendingPing := Some(payload));
              if |payload| > MAX64 then !ok && State() == st
              else (ok, State()) == Enqueue(st, ServerFrame(9, payload))
    {
      pendingPing := Some(payload);
      ok := SendFrame(9, payload);
    }

    /** The first half of `recv`: one frame off the stream, unmasked in place; a frame that breaks the rules
        closes the session. */
    method ReceiveFrame() returns (r: Option<Frame>)
      requires Valid()
      modifies this`pieces, this`closed, this`sendQueue
      ensures Valid()
      ensures match ReadFrame(old(Unread()), maxPayload)
              case Got(f, rest) => r == Some(f) && Unread() == rest && State() == old(State())
              case Starved => r == None && State() == old(State())
              case Unmasked => r == None && State() == Close(old(State()), 1002, MUST_MASK)
              case TooLarge => r == None && State() == Close(old(State()), 1009, TOO_LARGE)
    {
      hide Flatten, LengthOf, ExtendedSize, Masked, Take, Close, IsMasked, OpcodeOf, Len7;
      var h := ReadExact(2);
      if h.None? {
        return None;
      }
      var head := h.value;
      if !IsMasked(head[1]) {
        CloseWith(1002, MUST_MASK);
        return None;
      }
      var ext := ReadExact(ExtendedSize(Len7(head[1])));
      if ext.None? {
        return None;
      }
      var length := LengthOf(Len7(head[1]), ext.value);
      if length > maxPayload {
        CloseWith(1009, TOO_LARGE);
        return None;
      }
      var mask := ReadExact(4);
      if mask.None? {
        return None;
      }
      var body := ReadExact(length);
      if body.None? {
        return None;
      }
      var payload := new byte[length](i requires 0 <= i < length => body.value[i]);
      assert payload[..] == body.value;
      Unmask(payload, mask.value);
      r := Some(Frame(OpcodeOf(head[0]), payload[..]));
    }

    /** Receives the next message. The contract is the meaning of the unread stream; the recursion after a
        control frame terminates because the stream has become shorter. */
    method Recv(now: real) returns (r: Answer)
      requires Valid()
      modifies this
      ensures Valid()
      ensures match WebSocketFrames.Recv(old(Unread()), old(State()), maxPayload, now)
              case Message(f, rest, st) => r == Delivered(f.opcode, f.payload) && Unread() == rest && State() == st
              case Closed(st) => r == Raised && State() == st
      decreases |Unread()|
    {
      hide Flatten, ReadFrame, Close, Enqueue, ServerFrame;
      var frame := ReceiveFrame();
      if frame.None? {
        return Raised;
      }
      var op, data := frame.value.opcode, frame.value.payload;
      if op == 8 {
        CloseWith(1000, []);
        return Raised;
      }
      if op == 9 {
        var sent := SendFrame(10, data);
        if !sent {
          return Raised;
        }
        r := Recv(now);
        return;
      }
      if op == 10 {
        if pendingPing == None || pendingPing == Some(data) {
          lastPong := now;
          pendingPing := None;
        }
        r := Recv(now);
        return;
      }
      r := Delivered(op, data);
    }
  }
}
