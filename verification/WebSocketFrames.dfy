/** WebSocket frames on byte streams (sections 5.2, 5.3 and 5.5 of RFC 6455) and what the session of
    sovereign/websocket.py makes of them. */
module WebSocketFrames {
  import opened Errors

  type byte = b: int | 0 <= b < 256
  type opcode = o: int | 0 <= o < 16
  type bytes = seq<byte>

  // ---- bits --------------------------------------------------------------------------------

  /** Exclusive or of the low `k` bits. */
  function XorBits(a: nat, b: nat, k: nat): (r: nat) {
    if k == 0 then 0 else (if a % 2 == b % 2 then 0 else 1) + 2 * XorBits(a / 2, b / 2, k - 1)
  }

  function Pow2(k: nat): nat {
    if k == 0 then 1 else 2 * Pow2(k - 1)
  }

  lemma {:induction false} XorTwice(a: nat, m: nat, k: nat)
    requires a < Pow2(k)
    ensures XorBits(a, m, k) < Pow2(k) && XorBits(XorBits(a, m, k), m, k) == a
  {
    if k == 0 {
    } else {
      XorTwice(a / 2, m / 2, k - 1);
      var x := XorBits(a, m, k);
      assert x % 2 == (if a % 2 == m % 2 then 0 else 1) && x / 2 == XorBits(a / 2, m / 2, k - 1);
    }
  }

  function Xor(a: byte, m: byte): (r: byte)
    ensures XorBits(r, m, 8) == a
  {
    assert Pow2(4) == 16 && Pow2(8) == 16 * Pow2(4);
    XorTwice(a, m, 8);
    XorBits(a, m, 8)
  }

  function Bit(n: nat, i: nat): nat {
    if i == 0 then n % 2 else Bit(n / 2, i - 1)
  }

  lemma {:induction false} XorBitwise(a: nat, b: nat, k: nat, i: nat)
    ensures Bit(XorBits(a, b, k), i) == if i < k && Bit(a, i) != Bit(b, i) then 1 else 0
  {
    if k == 0 {
      NoBits(i);
    } else {
      var x := XorBits(a, b, k);
      assert x % 2 == (if a % 2 == b % 2 then 0 else 1) && x / 2 == XorBits(a / 2, b / 2, k - 1);
      if i > 0 {
        XorBitwise(a / 2, b / 2, k - 1, i - 1);
      }
    }
  }

  lemma {:induction false} NoBits(i: nat)
    ensures Bit(0, i) == 0
  {
    if i > 0 { NoBits(i - 1); }
  }

  /** `a ^ m`: a bit is set exactly where the two differ. */
  lemma XorExactly(a: byte, m: byte, i: nat)
    requires i < 8
    ensures Bit(Xor(a, m), i) == if Bit(a, i) != Bit(m, i) then 1 else 0
  {
    XorBitwise(a, m, 8, i);
  }

  /** `b & 0x0F` of a first header byte */
  function OpcodeOf(b1: byte): opcode {
    b1 % 16
  }

  /** `0x80 | opcode`: the first byte of a final frame */
  function FinalByte(op: opcode): byte {
    0x80 + op
  }

  /** `b & 0x80` of a second header byte */
  predicate IsMasked(b2: byte) {
    b2 >= 0x80
  }

  /** `b & 0x7F` of a second header byte */
  function Len7(b2: byte): byte {
    b2 % 0x80
  }

  // ---- big-endian numbers ------------------------------------------------------------------

  /** `int.from_bytes(s, "big")` */
  function FromBig(s: bytes): nat {
    if s == [] then 0 else FromBig(s[..|s| - 1]) * 256 + s[|s| - 1]
  }

  /** `n.to_bytes(k, "big")` for a number that fits. */
  function ToBig(n: nat, k: nat): (s: bytes)
    ensures |s| == k
  {
    if k == 0 then [] else ToBig(n / 256, k - 1) + [n % 256]
  }

  function Pow256(k: nat): nat {
    if k == 0 then 1 else 256 * Pow256(k - 1)
  }

  lemma {:induction false} BigRoundTrip(n: nat, k: nat)
    requires n < Pow256(k)
    ensures FromBig(ToBig(n, k)) == n
  {
    if k == 0 {
    } else {
      BigRoundTrip(n / 256, k - 1);
      assert ToBig(n, k)[..k - 1] == ToBig(n / 256, k - 1);
    }
  }

  /** The most significant byte comes first. */
  lemma {:induction false} BigEndian(b: byte, s: bytes)
    ensures FromBig([b] + s) == b * Pow256(|s|) + FromBig(s)
  {
    if s == [] {
      assert [b] + s == [b] && [b][..0] == [];
    } else {
      var init := s[..|s| - 1];
      assert ([b] + s)[..|s|] == [b] + init;
      BigEndian(b, init);
    }
  }

  const MAX16 := 0xFFFF
  const MAX64 := 0xFFFF_FFFF_FFFF_FFFF

  lemma BigLimits()
    ensures Pow256(2) == MAX16 + 1 && Pow256(8) == MAX64 + 1
  {
    assert Pow256(4) == 256 * Pow256(3);
    assert Pow256(6) == 256 * Pow256(5);
    assert Pow256(8) == 256 * Pow256(7);
  }

  // ---- lengths -----------------------------------------------------------------------------

  datatype LengthForm = Short | Medium | Long

  predicate Fits(form: LengthForm, n: nat) {
    match form case Short => n < 126 case Medium => n <= MAX16 case Long => n <= MAX64
  }

  /** The second header byte. */
  function LengthByte(form: LengthForm, n: nat, maskBit: byte): byte
    requires Fits(form, n) && (maskBit == 0 || maskBit == 0x80)
  {
    match form case Short => maskBit + n case Medium => maskBit + 126 case Long => maskBit + 127
  }

  /** The extended length after it. */
  function LengthExt(form: LengthForm, n: nat): bytes {
    match form case Short => [] case Medium => ToBig(n, 2) case Long => ToBig(n, 8)
  }

  function ExtendedSize(len7: byte): nat {
    if len7 == 126 then 2 else if len7 == 127 then 8 else 0
  }

  function LengthOf(len7: byte, ext: bytes): nat {
    if ext == [] then len7 else FromBig(ext)
  }

  lemma LengthRoundTrip(form: LengthForm, n: nat, maskBit: byte)
    requires Fits(form, n) && (maskBit == 0 || maskBit == 0x80)
    ensures var b := LengthByte(form, n, maskBit);
            && (IsMasked(b) <==> maskBit == 0x80)
            && ExtendedSize(Len7(b)) == |LengthExt(form, n)|
            && LengthOf(Len7(b), LengthExt(form, n)) == n
  {
    hide ToBig, FromBig;
    BigLimits();
    match form
    case Short =>
    case Medium => BigRoundTrip(n, 2);
    case Long => BigRoundTrip(n, 8);
  }

  // ---- frames to the server ----------------------------------------------------------------

  function Masked(payload: bytes, mask: bytes): (r: bytes)
    requires |mask| == 4
    ensures |r| == |payload|
  {
    seq(|payload|, i requires 0 <= i < |payload| => Xor(payload[i], mask[i % 4]))
  }

  lemma MaskTwice(payload: bytes, mask: bytes)
    requires |mask| == 4
    ensures Masked(Masked(payload, mask), mask) == payload
  {
    forall i | 0 <= i < |payload|
      ensures Masked(Masked(payload, mask), mask)[i] == payload[i]
    {
      assert XorBits(Xor(payload[i], mask[i % 4]), mask[i % 4], 8) == payload[i];
    }
  }

  datatype Frame = Frame(opcode: opcode, payload: bytes)

  datatype Reading = Got(frame: Frame, rest: bytes) | Unmasked | TooLarge | Starved

  /** The first `n` bytes and the rest, if there are that many. */
  function Take(s: bytes, n: nat): (r: Option<(bytes, bytes)>)
    ensures r.Some? <==> n <= |s|
    ensures r.Some? ==> |r.value.0| == n && s == r.value.0 + r.value.1
  {
    if n <= |s| then Some((s[..n], s[n..])) else None
  }

  lemma TakeExactly(a: bytes, b: bytes)
    ensures Take(a + b, |a|) == Some((a, b))
  {
    assert (a + b)[..|a|] == a && (a + b)[|a|..] == b;
  }

  /** The frame at the head of a client's stream. */
  function ReadFrame(s: bytes, max: nat): (r: Reading)
    ensures r.Got? ==> |r.rest| < |s|
  {
    match Take(s, 2)
    case None => Starved
    case Some((head, t)) => if !IsMasked(head[1]) then Unmasked else ReadMasked(head, t, max)
  }

  function ReadMasked(head: bytes, t: bytes, max: nat): (r: Reading)
    requires |head| == 2
    ensures r.Got? ==> |r.rest| <= |t|
  {
    match Take(t, ExtendedSize(Len7(head[1])))
    case None => Starved
    case Some((ext, u)) =>
      var n := LengthOf(Len7(head[1]), ext);
      if n > max then TooLarge
      else
        match Take(u, 4)
        case None => Starved
        case Some((mask, v)) =>
          match Take(v, n)
          case None => Starved
          case Some((payload, rest)) => Got(Frame(OpcodeOf(head[0]), Masked(payload, mask)), rest)
  }

  /** What a client may send: any flag bits, any of the three length forms that fits, any mask. */
  datatype ClientFrame = ClientFrame(first: byte, form: LengthForm, mask: bytes, payload: bytes) {
    function Opcode(): opcode {
      OpcodeOf(first)
    }
  }

  predicate Sendable(f: ClientFrame, max: nat) {
    |f.mask| == 4 && |f.payload| <= max && Fits(f.form, |f.payload|)
  }

  function Wire(f: ClientFrame): bytes
    requires |f.mask| == 4 && Fits(f.form, |f.payload|)
  {
    var n := |f.payload|;
    [f.first, LengthByte(f.form, n, 0x80)] + (LengthExt(f.form, n) + (f.mask + Masked(f.payload, f.mask)))
  }

  predicate AllSendable(fs: seq<ClientFrame>, max: nat) {
    fs != [] ==> Sendable(fs[0], max) && AllSendable(fs[1..], max)
  }

  function WireAll(fs: seq<ClientFrame>, max: nat): bytes
    requires AllSendable(fs, max)
  {
    if fs == [] then [] else Wire(fs[0]) + WireAll(fs[1..], max)
  }

  lemma FrameRoundTrip(f: ClientFrame, rest: bytes, max: nat)
    requires Sendable(f, max)
    ensures ReadFrame(Wire(f) + rest, max) == Got(Frame(f.Opcode(), f.payload), rest)
  {
    hide Take, LengthByte, LengthExt, ExtendedSize, LengthOf, Masked, Fits, OpcodeOf, IsMasked, Len7;
    var n := |f.payload|;
    var head, ext := [f.first, LengthByte(f.form, n, 0x80)], LengthExt(f.form, n);
    var v := Masked(f.payload, f.mask) + rest;
    LengthRoundTrip(f.form, n, 0x80);
    assert Wire(f) + rest == head + (ext + (f.mask + v));
    TakeExactly(head, ext + (f.mask + v));
    TakeExactly(ext, f.mask + v);
    TakeExactly(f.mask, v);
    TakeExactly(Masked(f.payload, f.mask), rest);
    MaskTwice(f.payload, f.mask);
  }

  // ---- frames from the server --------------------------------------------------------------

  function FormFor(n: nat): (form: LengthForm)
    ensures n <= MAX64 ==> Fits(form, n)
  {
    if n < 126 then Short else if n <= MAX16 then Medium else Long
  }

  /** The header `_send_frame` computes, in its own terms. */
  function ServerHeader(op: opcode, n: nat): bytes
    requires n <= MAX64
  {
    if n < 126 then [FinalByte(op), n]
    else if n <= MAX16 then [FinalByte(op), 126] + ToBig(n, 2)
    else [FinalByte(op), 127] + ToBig(n, 8)
  }

  lemma ServerHeaderIs(op: opcode, n: nat)
    requires n <= MAX64
    ensures ServerHeader(op, n) == [FinalByte(op), LengthByte(FormFor(n), n, 0)] + LengthExt(FormFor(n), n)
  {
  }

  /** The bytes `_send_frame` puts on the queue. */
  function ServerFrame(op: opcode, payload: bytes): bytes
    requires |payload| <= MAX64
  {
    ServerHeader(op, |payload|) + payload
  }

  function ServerFrames(fs: seq<Frame>): bytes
    requires forall i :: 0 <= i < |fs| ==> |fs[i].payload| <= MAX64
  {
    if fs == [] then [] else ServerFrame(fs[0].opcode, fs[0].payload) + ServerFrames(fs[1..])
  }

  /** A client's reading of one unmasked final frame. */
  function ReadServerFrame(s: bytes): Option<(Frame, bytes)> {
    match Take(s, 2)
    case None => None
    case Some((head, t)) =>
      if head[0] / 16 != 8 || IsMasked(head[1]) then None
      else
        match Take(t, ExtendedSize(Len7(head[1])))
        case None => None
        case Some((ext, u)) =>
          match Take(u, LengthOf(Len7(head[1]), ext))
          case None => None
          case Some((payload, rest)) => Some((Frame(OpcodeOf(head[0]), payload), rest))
  }

  function ReadServerFrames(s: bytes): Option<seq<Frame>>
    decreases |s|
  {
    if s == [] then Some([])
    else
      match ReadServerFrame(s)
      case None => None
      case Some((f, rest)) =>
        if |rest| >= |s| then None
        else match ReadServerFrames(rest) case None => None case Some(fs) => Some([f] + fs)
  }

  lemma ServerFrameRoundTrip(f: Frame, rest: bytes)
    requires |f.payload| <= MAX64
    ensures ReadServerFrame(ServerFrame(f.opcode, f.payload) + rest) == Some((f, rest))
  {
    hide Take, LengthByte, LengthExt, ExtendedSize, LengthOf, ServerHeader, FormFor,
         IsMasked, Len7;
    var op, n := f.opcode, |f.payload|;
    var b := LengthByte(FormFor(n), n, 0);
    var head, ext := [FinalByte(op), b], LengthExt(FormFor(n), n);
    LengthRoundTrip(FormFor(n), n, 0);
    assert FinalByte(op) / 16 == 8 && OpcodeOf(FinalByte(op)) == op;
    ServerHeaderIs(op, n);
    assert ServerFrame(op, f.payload) + rest == head + (ext + (f.payload + rest));
    TakeExactly(head, ext + (f.payload + rest));
    TakeExactly(ext, f.payload + rest);
    TakeExactly(f.payload, rest);
  }

  /** Whatever the server sends one after the other, a client splits back into exactly those frames. */
  lemma {:induction false} ServerFramesRoundTrip(fs: seq<Frame>)
    requires forall i :: 0 <= i < |fs| ==> |fs[i].payload| <= MAX64
    ensures ReadServerFrames(ServerFrames(fs)) == Some(fs)
  {
    hide ReadServerFrame;
    if fs == [] {
    } else {
      ServerFrameRoundTrip(fs[0], ServerFrames(fs[1..]));
      ServerFramesRoundTrip(fs[1..]);
      assert fs == [fs[0]] + fs[1..];
    }
  }

  // ---- the session -------------------------------------------------------------------------

  datatype Item = Outgoing(frame: bytes) | StopWriter

  datatype Session = Session(
    closed: bool,
    queue: seq<Item>,
    queueSize: int,                       // not positive means unbounded, as in `queue.Queue`
    lastPong: real,
    pendingPing: Option<bytes>)
  {
    predicate Room() {
      queueSize <= 0 || |queue| < queueSize
    }

    /** `put_nowait`, with `queue.Full` swallowed */
    function PutIfRoom(item: Item): Session {
      if Room() then this.(queue := queue + [item]) else this
    }
  }

  function CloseFrame(code: nat, reason: bytes): bytes {
    var payload := ToBig(code, 2) + (if |reason| > 120 then reason[..120] else reason);
    [0x88, |payload|] + payload
  }

  /** A close frame is a frame like any other: opcode 8, the status code, then at most 120 bytes of reason. */
  lemma CloseFrameReads(code: nat, reason: bytes, rest: bytes)
    requires code <= MAX16
    ensures var payload := ToBig(code, 2) + (if |reason| > 120 then reason[..120] else reason);
            && ReadServerFrame(CloseFrame(code, reason) + rest) == Some((Frame(8, payload), rest))
            && FromBig(payload[..2]) == code
  {
    hide ReadServerFrame, ToBig, FromBig;
    var payload := ToBig(code, 2) + (if |reason| > 120 then reason[..120] else reason);
    assert CloseFrame(code, reason) == ServerFrame(8, payload);
    ServerFrameRoundTrip(Frame(8, payload), rest);
    assert payload[..2] == ToBig(code, 2);
    BigLimits();
    BigRoundTrip(code, 2);
  }

  /** A code of more than two bytes cannot be put into a frame, and none is sent. */
  function Close(st: Session, code: nat, reason: bytes): Session {
    if st.closed then st
    else if code > MAX16 then st.(closed := true).PutIfRoom(StopWriter)
    else st.(closed := true).PutIfRoom(Outgoing(CloseFrame(code, reason))).PutIfRoom(StopWriter)
  }

  /** As many of the close frame and the stop mark are queued as there is room for, in this order; a code of more than
      two bytes makes for no close frame. */
  lemma CloseExactly(st: Session, code: nat, reason: bytes)
    requires st.queueSize > 0 ==> |st.queue| <= st.queueSize
    ensures var items := if code <= 0xFFFF then [Outgoing(CloseFrame(code, reason)), StopWriter] else [StopWriter];
            var room := if st.queueSize <= 0 || st.queueSize - |st.queue| > |items| then |items|
                        else st.queueSize - |st.queue|;
            Close(st, code, reason) ==
            if st.closed then st else st.(closed := true, queue := st.queue + items[..room])
  {
    hide CloseFrame;
    assert [StopWriter][..0] == [] && [StopWriter][..1] == [StopWriter];
    var items := [Outgoing(CloseFrame(code, reason)), StopWriter];
    assert items[..0] == [] && items[..1] == [items[0]] && items[..2] == [items[0]] + [items[1]];
    assert st.queue + [] == st.queue;
    assert st.queue + ([items[0]] + [items[1]]) == st.queue + [items[0]] + [items[1]];
  }

  /** The bytes of an ASCII text. */
  function Ascii(text: string): bytes
    requires forall i :: 0 <= i < |text| ==> text[i] as int < 128
  {
    seq(|text|, i requires 0 <= i < |text| => text[i] as int)
  }

  lemma Reasons()
    ensures QUEUE_FULL == Ascii("send queue full")
    ensures MUST_MASK == Ascii("client frames must be masked")
    ensures TOO_LARGE == Ascii("message too large")
  {
  }

  const QUEUE_FULL: bytes := [115, 101, 110, 100, 32, 113, 117, 101, 117, 101, 32, 102, 117, 108, 108]
  const MUST_MASK: bytes := [99, 108, 105, 101, 110, 116, 32, 102, 114, 97, 109, 101, 115, 32, 109, 117, 115, 116,
                             32, 98, 101, 32, 109, 97, 115, 107, 101, 100]
  const TOO_LARGE: bytes := [109, 101, 115, 115, 97, 103, 101, 32, 116, 111, 111, 32, 108, 97, 114, 103, 101]

  /** Sending fails when closed, and closes the session when the queue is full. */
  function Enqueue(st: Session, frame: bytes): (bool, Session) {
    if st.closed then (false, st)
    else if st.Room() then (true, st.(queue := st.queue + [Outgoing(frame)]))
    else (false, Close(st, 1008, QUEUE_FULL))
  }

  function OnPong(st: Session, data: bytes, now: real): Session {
    if st.pendingPing == None || st.pendingPing == Some(data) then st.(lastPong := now, pendingPing := None) else st
  }

  datatype Received = Message(frame: Frame, rest: bytes, session: Session) | Closed(session: Session)

  /** One `recv` on a stream: control frames are handled on the way to the next message. */
  function Recv(s: bytes, st: Session, max: nat, now: real): (r: Received)
    ensures r.Message? ==> |r.rest| < |s|
    decreases |s|
  {
    match ReadFrame(s, max)
    case Starved => Closed(st)
    case Unmasked => Closed(Close(st, 1002, MUST_MASK))
    case TooLarge => Closed(Close(st, 1009, TOO_LARGE))
    case Got(f, rest) =>
      if f.opcode == 8 then Closed(Close(st, 1000, []))
      else if f.opcode == 9 then
        if |f.payload| > MAX64 then Closed(st)
        else
          var (sent, st') := Enqueue(st, ServerFrame(10, f.payload));
          if sent then Recv(rest, st', max, now) else Closed(st')
      else if f.opcode == 10 then Recv(rest, OnPong(st, f.payload, now), max, now)
      else Message(f, rest, st)
  }

  /** `recv` again and again until it raises: the messages, and the session left behind. */
  function RecvAll(s: bytes, st: Session, max: nat, now: real): (seq<Frame>, Session)
    decreases |s|
  {
    match Recv(s, st, max, now)
    case Closed(st') => ([], st')
    case Message(f, rest, st') =>
      var (more, st'') := RecvAll(rest, st', max, now);
      ([f] + more, st'')
  }

  // ---- what is refused ---------------------------------------------------------------------

  /** A frame without a mask closes the session with 1002. */
  lemma UnmaskedCloses(s: bytes, st: Session, max: nat, now: real)
    requires |s| >= 2 && s[1] < 0x80
    ensures Recv(s, st, max, now) == Closed(Close(st, 1002, Ascii("client frames must be masked")))
  {
    Reasons();
  }

  /** A frame over the limit closes the session with 1009, before its payload is read. */
  lemma LargeCloses(f: ClientFrame, n: nat, rest: bytes, st: Session, max: nat, now: real)
    requires Fits(f.form, n) && n > max
    ensures var s := [f.first, LengthByte(f.form, n, 0x80)] + (LengthExt(f.form, n) + rest);
            Recv(s, st, max, now) == Closed(Close(st, 1009, Ascii("message too large")))
  {
    hide Take, LengthByte, LengthExt, ExtendedSize, LengthOf, Fits, IsMasked, Len7;
    Reasons();
    var head, ext := [f.first, LengthByte(f.form, n, 0x80)], LengthExt(f.form, n);
    LengthRoundTrip(f.form, n, 0x80);
    TakeExactly(head, ext + rest);
    TakeExactly(ext, rest);
  }

  /** A ping that cannot be answered, because the session is closed or the queue full, leaves it closed; nothing more is
      queued, and what follows is not read. */
  lemma FullQueueCloses(f: ClientFrame, rest: bytes, st: Session, max: nat, now: real)
    requires Sendable(f, max) && f.Opcode() == 9 && (st.closed || 0 < st.queueSize <= |st.queue|)
    ensures Recv(Wire(f) + rest, st, max, now) == Closed(st.(closed := true))
  {
    hide ReadFrame, Wire, ServerFrame, CloseFrame;
    FrameRoundTrip(f, rest, max);
    assert |f.payload| <= MAX64 by { FitsMax(f.form, |f.payload|); }
  }

  /** A stream that ends within a frame leaves the session as it was. */
  lemma CutFrameStarves(f: ClientFrame, t: bytes, st: Session, max: nat, now: real)
    requires Sendable(f, max) && t < Wire(f)
    ensures Recv(t, st, max, now) == Closed(st)
  {
    hide LengthByte, LengthExt, ExtendedSize, LengthOf, Masked, Fits, OpcodeOf, IsMasked, Len7;
    var n := |f.payload|;
    LengthRoundTrip(f.form, n, 0x80);
    var head, ext := [f.first, LengthByte(f.form, n, 0x80)], LengthExt(f.form, n);
    assert Wire(f) == head + (ext + (f.mask + Masked(f.payload, f.mask)));
    if |t| >= 2 {
      assert t[..2] == head;
      var u := t[2..];
      if |u| >= |ext| {
        assert u[..|ext|] == ext;
      }
    }
  }

  // ---- what a client's frames mean ---------------------------------------------------------

  function Messages(fs: seq<ClientFrame>): seq<Frame> {
    if fs == [] then []
    else (if 8 <= fs[0].Opcode() <= 10 then [] else [Frame(fs[0].Opcode(), fs[0].payload)]) + Messages(fs[1..])
  }

  /** One pong per ping, with the ping's payload, in order. */
  function Pongs(fs: seq<ClientFrame>): seq<Item> {
    if fs == [] then []
    else (if fs[0].Opcode() == 9 && |fs[0].payload| <= MAX64 then [Outgoing(ServerFrame(10, fs[0].payload))] else [])
         + Pongs(fs[1..])
  }

  /** The effect of the frames' pongs on the heartbeat. */
  function Heartbeat(st: Session, fs: seq<ClientFrame>, now: real): Session
    decreases fs
  {
    if fs == [] then st
    else Heartbeat(if fs[0].Opcode() == 10 then OnPong(st, fs[0].payload, now) else st, fs[1..], now)
  }

  lemma {:induction false} HeartbeatQueue(st: Session, fs: seq<ClientFrame>, now: real, q: seq<Item>)
    ensures Heartbeat(st.(queue := q), fs, now) == Heartbeat(st, fs, now).(queue := q)
    ensures Heartbeat(st, fs, now).queue == st.queue && Heartbeat(st, fs, now).closed == st.closed
    ensures Heartbeat(st, fs, now).queueSize == st.queueSize
    decreases fs
  {
    if fs == [] {
    } else {
      HeartbeatQueue(if fs[0].Opcode() == 10 then OnPong(st, fs[0].payload, now) else st, fs[1..], now, q);
    }
  }

  /** Some frame is a pong that answers `ping`, or any pong if there is no ping to answer. */
  ghost predicate Answered(ping: Option<bytes>, fs: seq<ClientFrame>) {
    exists i :: 0 <= i < |fs| && fs[i].Opcode() == 10 && (ping == None || ping == Some(fs[i].payload))
  }

  /** Only a pong that carries the payload of the pending ping counts as its answer. */
  lemma {:induction false} HeartbeatExactly(st: Session, fs: seq<ClientFrame>, now: real)
    ensures Heartbeat(st, fs, now)
         == if Answered(st.pendingPing, fs) then st.(lastPong := now, pendingPing := None) else st
    decreases fs
  {
    if fs == [] {
    } else {
      var f, rest := fs[0], fs[1..];
      var st' := if f.Opcode() == 10 then OnPong(st, f.payload, now) else st;
      HeartbeatExactly(st', rest, now);
      assert Answered(st.pendingPing, rest) ==> Answered(st.pendingPing, fs) by {
        assert forall i :: 0 <= i < |rest| ==> rest[i] == fs[i + 1];
      }
      if Answered(st.pendingPing, fs) && !Answered(st.pendingPing, rest) {
        assert forall i :: 1 <= i < |fs| ==> fs[i] == rest[i - 1];
      }
    }
  }

  predicate NoClose(fs: seq<ClientFrame>) {
    fs != [] ==> fs[0].Opcode() != 8 && NoClose(fs[1..])
  }

  ghost predicate RoomFor(st: Session, fs: seq<ClientFrame>) {
    !st.closed && (st.queueSize <= 0 || |st.queue| + |Pongs(fs)| <= st.queueSize)
  }

  lemma HeartbeatOne(st: Session, f: ClientFrame, now: real)
    ensures Heartbeat(st, [f], now) == if f.Opcode() == 10 then OnPong(st, f.payload, now) else st
  {
    assert [f][1..] == [];
  }

  /** One frame that is not a close, at the head of the stream. */
  lemma RecvOne(f: ClientFrame, t: bytes, st: Session, max: nat, now: real)
    requires Sendable(f, max) && f.Opcode() != 8 && RoomFor(st, [f])
    ensures var r := RecvAll(Wire(f) + t, st, max, now);
            var st' := Heartbeat(st.(queue := st.queue + Pongs([f])), [f], now);
            var more := RecvAll(t, st', max, now);
            r == (Messages([f]) + more.0, more.1)
  {
    hide ReadFrame, Wire, ServerFrame;
    FrameRoundTrip(f, t, max);
    assert |f.payload| <= MAX64 by { FitsMax(f.form, |f.payload|); }
    assert [f][1..] == [];
    var st' := Heartbeat(st.(queue := st.queue + Pongs([f])), [f], now);
    var more := RecvAll(t, st', max, now);
    assert [] + more.0 == more.0;
    HeartbeatOne(st.(queue := st.queue + Pongs([f])), f, now);
    if f.Opcode() == 9 {
      assert Pongs([f]) == [Outgoing(ServerFrame(10, f.payload))] && Messages([f]) == [];
      assert Enqueue(st, ServerFrame(10, f.payload)) == (true, st');
      assert Recv(Wire(f) + t, st, max, now) == Recv(t, st', max, now);
    } else if f.Opcode() == 10 {
      assert Pongs([f]) == [] && st.queue + [] == st.queue;
      assert Recv(Wire(f) + t, st, max, now) == Recv(t, st', max, now);
    } else {
      assert Pongs([f]) == [] && st.queue + [] == st.queue;
      assert Messages([f]) == [Frame(f.Opcode(), f.payload)];
      assert Recv(Wire(f) + t, st, max, now) == Message(Frame(f.Opcode(), f.payload), t, st);
    }
  }

  lemma FitsMax(form: LengthForm, n: nat)
    requires Fits(form, n)
    ensures n <= MAX64
  {
  }

  /** For every sequence of masked client frames without a close, in any flag bits, length forms and masks:
      repeated `recv` yields exactly the unmasked messages in order and queues exactly one pong per ping,
      then goes on with whatever follows. */
  lemma {:induction false} RecvFrames(fs: seq<ClientFrame>, t: bytes, st: Session, max: nat, now: real)
    requires AllSendable(fs, max) && NoClose(fs)
    requires RoomFor(st, fs)
    ensures var st' := Heartbeat(st.(queue := st.queue + Pongs(fs)), fs, now);
            var more := RecvAll(t, st', max, now);
            RecvAll(WireAll(fs, max) + t, st, max, now) == (Messages(fs) + more.0, more.1)
    decreases fs
  {
    hide RecvAll, Wire, Heartbeat, Messages, Pongs;
    if fs == [] {
      NothingReceived(t, st, max, now);
    } else {
      var f, rest := fs[0], fs[1..];
      var u := WireAll(rest, max) + t;
      assert WireAll(fs, max) + t == Wire(f) + u;
      assert fs == [f] + rest;
      FrameThenRest(f, rest);
      RecvOne(f, u, st, max, now);
      var st1 := Heartbeat(st.(queue := st.queue + Pongs([f])), [f], now);
      HeartbeatSplit(st, f, rest, now);
      RecvFrames(rest, t, st1, max, now);
      QueueAssoc(st.queue, Pongs([f]), Pongs(rest));
      var more := RecvAll(t, Heartbeat(st1.(queue := st1.queue + Pongs(rest)), rest, now), max, now);
      assert Messages([f]) + (Messages(rest) + more.0) == Messages(fs) + more.0;
    }
  }

  lemma NothingReceived(t: bytes, st: Session, max: nat, now: real)
    ensures WireAll([], max) + t == t && Messages([]) == []
    ensures Heartbeat(st.(queue := st.queue + Pongs([])), [], now) == st
    ensures [] + RecvAll(t, st, max, now).0 == RecvAll(t, st, max, now).0
  {
    assert st.queue + [] == st.queue;
  }

  lemma FrameThenRest(f: ClientFrame, rest: seq<ClientFrame>)
    ensures Pongs([f] + rest) == Pongs([f]) + Pongs(rest) && Messages([f] + rest) == Messages([f]) + Messages(rest)
  {
    assert [f][1..] == [] && ([f] + rest)[1..] == rest;
  }

  lemma QueueAssoc(a: seq<Item>, b: seq<Item>, c: seq<Item>)
    ensures a + b + c == a + (b + c)
  {
  }

  lemma HeartbeatSplit(st: Session, f: ClientFrame, rest: seq<ClientFrame>, now: real)
    ensures var st1 := Heartbeat(st.(queue := st.queue + Pongs([f])), [f], now);
            var q := st.queue + Pongs([f]) + Pongs(rest);
            && st1.queue == st.queue + Pongs([f]) && st1.closed == st.closed && st1.queueSize == st.queueSize
            && Heartbeat(st1.(queue := q), rest, now) == Heartbeat(st.(queue := q), [f] + rest, now)
  {
    hide OnPong;
    var q := st.queue + Pongs([f]) + Pongs(rest);
    HeartbeatQueue(st, [f], now, st.queue + Pongs([f]));
    HeartbeatQueue(st, [f], now, q);
    assert [f][1..] == [] && ([f] + rest)[1..] == rest;
  }

  /** ... and up to the first close frame: what follows it is never looked at. */
  lemma RecvUntilClose(fs: seq<ClientFrame>, close: ClientFrame, after: bytes, st: Session, max: nat, now: real)
    requires AllSendable(fs, max) && NoClose(fs)
    requires Sendable(close, max) && close.Opcode() == 8
    requires RoomFor(st, fs)
    ensures var st' := Heartbeat(st.(queue := st.queue + Pongs(fs)), fs, now);
            RecvAll(WireAll(fs, max) + (Wire(close) + after), st, max, now) == (Messages(fs), Close(st', 1000, []))
  {
    hide Wire, WireAll, ReadFrame, Messages, Pongs, Heartbeat;
    RecvFrames(fs, Wire(close) + after, st, max, now);
    FrameRoundTrip(close, after, max);
    assert Messages(fs) + [] == Messages(fs);
  }

  // ---- what every step keeps ---------------------------------------------------------------

  /** The send queue never outgrows its limit. */
  predicate Bounded(st: Session) {
    st.queueSize > 0 ==> |st.queue| <= st.queueSize
  }

  /** From `a` to `b` nothing queued is lost or reordered, and a closed session stays closed with its queue as it
      was. */
  predicate Grows(a: Session, b: Session) {
    && a.queue <= b.queue && a.queueSize == b.queueSize
    && (Bounded(a) ==> Bounded(b))
    && (a.closed ==> b.closed && b.queue == a.queue)
  }

  lemma {:induction false} RecvGrows(s: bytes, st: Session, max: nat, now: real)
    ensures var r := Recv(s, st, max, now);
            Grows(st, r.session) && (r.Closed? && ReadFrame(s, max).Unmasked? ==> r.session.closed)
    decreases |s|
  {
    hide ReadFrame, ServerFrame;
    match ReadFrame(s, max)
    case Got(f, rest) =>
      if f.opcode == 9 && |f.payload| <= MAX64 {
        var (sent, st') := Enqueue(st, ServerFrame(10, f.payload));
        if sent {
          RecvGrows(rest, st', max, now);
        }
      } else if f.opcode == 10 {
        RecvGrows(rest, OnPong(st, f.payload, now), max, now);
      }
    case _ =>
  }
}
