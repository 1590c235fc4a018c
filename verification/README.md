# Sovereign: a verified model of its protocol and state machines

Sovereign is an HTTP framework that implements its protocols itself. This project models the parts that own
an algorithm and proves what they are for:

- **Requests over a socket** (`SocketReader.dfy`, `Pieces.dfy`, `ChunkedPieces.dfy`, `ChunkedCoding.dfy`,
  `ChunkSizes.dfy`, `HeaderBlock.dfy`, `HeaderRefusals.dfy`, `RequestParser.dfy`, `AsyncBodyReader.dfy`, `Socket.dfy`). The reader's buffer is filled by
  arbitrary `recv` pieces, searched for a marker and cut in place. Every read is a function of buffer and pieces, and
  it is shown exactly where the way the bytes were cut makes a difference; elsewhere the result is a function of the
  bytes sent. Chunked and length-framed requests are received exactly; the server's writer, the blocking decoder and
  the asyncio decoder agree.
- **WebSocket** (`WebSocketFrames.dfy`, `WebSocketSession.dfy`). Frames in all three length forms, masking in
  place, and the recursive receive loop with its bounded send queue.
- **Limits** (`TokenBucket.dfy`, `Admission.dfy`, `LateRequests.dfy`, `BruteForce.dfy`). The token bucket with its two
  storages, which requests it admits, how late a timestamp may be before the storages differ, and the lockout guard,
  over whole runs.
- **Multipart forms** (`Multipart.dfy`, `MultipartParts.dfy`, `UploadTypes.dfy`, `MultipartRoundTrip.dfy`, `Utf8.dfy`),
  against the encoding of RFC 7578, with fields decoded from UTF-8 the way Python replaces malformed bytes.
- **Validation and schemas** (`Validation.dfy`, `ScalarMeanings.dfy`, `ContainerMeanings.dfy`, `Idempotence.dfy`,
  `ScalarUnions.dfy`, `Schema.dfy`, `SchemaMeaning.dfy`, `SchemaAgreement.dfy`, `SchemaLimits.dfy`). The type-directed validator, the schema generator for the same types, and where they agree.
- **Dependency injection** (`Injection.dfy`): memoised resolution against plain evaluation.
- **Token revocation** (`Blocklist.dfy`, `JwtAuth.dfy`): a cache over a table with two clocks, and what that
  means for a token check.
- **Background tasks and events** (`TaskQueue.dfy`, `EventHub.dfy`).

`Text.dfy` has the byte-string operations, `Errors.dfy` results, errors and the server's limits.

How it is modelled. Objects with fields are classes whose methods are proved against a function of the old state;
the theorems are about that function. A socket is a sequence of nonempty pieces of at most 4096 bytes followed by
the error in which it ends (`ClientClosed` or a timeout). Bytes are written as characters of the same code, or as
numbers below 256 for WebSocket. Finite floats are reals, tables are maps or sequences, and the time is an argument.
Signatures, base64, JSON, number parsing and conversion, `str()` and `encode()` are parameters; the conversions that
can fail are partial.

Where the code does not keep a promise, the code is modelled as it is: there is a lemma with the input that shows
it. The table gives the exact conditions that are proved, in both directions, for all inputs.

| promise | holds exactly when | lemmas |
|---|---|---|
| the evicting SQLite table answers like the dictionary, and keeps the rate | for timestamps at most d late: 2 * d + window does not exceed the age at which rows are dropped | `LatenessExactly`, `LateBreaks` |
| the search for a line or blank line answers alike however the stream is cut | the marker does not end between limit + 1 bytes and one piece beyond the limit | `PiecesMatterExactly` |
| a negative chunk size takes the same bytes however the stream is cut | the buffer cannot hold more than that many bytes of what follows: the size is -4095 or below, or no more than that follows | `NegativeTakeExactly`, `NegativeSizesMatter` |
| an accepted chunked body has the announced size, and with it keeps the body limit | no negative size was read on the way | `LimitKept`, `LimitMissed` |
| a valid JSON value is accepted by the validator | the conversions its type asks of it are possible; at every type at once: every number, string and part of it is representable | `Agreement`, `RepresentableExactly`, `ConversionsExactly` |
| a set type crashes on no convertible JSON value | its item type hashes whatever it accepts | `SetExactly` |
| a dictionary type agrees with its schema | its key type accepts every string | `DictExactly` |
| a bare class or `None` on its own agrees with its schema | never | `NeverAgree` |
| a tuple type gets only tuples of its own | it is variadic or has no parameters | `TupleExactly` |
| coercing at a union of two scalar types twice is coercing once | it is none of `bool \| str`, `int \| float`, `bytes \| str` (under the stated facts about the library) | `ScalarUnionExactly` |
| an accepted method is a token | it contains no line feed | `MethodMayEndInLineFeed` |
| a provider cached for all requests is worth to each what it would compute for it, whatever the bodies compute | neither it nor anything it depends on takes the request | `RequestFreeExactly`, `Router.TwoRequests` |
| a form field is received, decoded, as it was sent | the content does not contain `--boundary` (the parser looks for it anywhere, not at the start of a line) | `SingleFieldExact` |
| encoding the received field gives the bytes that were sent | that, and the content is well-formed UTF-8 | `SingleFieldExact`, `InvalidByteIsReplaced` |
| a revoked id's token stays rejected, whatever happens next | the latest revocation of the id has no earlier expiry than the token (one clock reading per check) | `RejectedForeverExactly` |
| a revoked token is rejected by a check with two clock readings | unless the second has passed the revocation's expiry, the first not the token's, and the cache is stale | `AcceptedAfterRevokeExactly`, `AcceptedAcrossExpiry` |
| waiting `Retry-After` seconds is enough for the limiter | the hint is at most a second, or its fraction is zero or at least a thousandth | `RetryAfterSuffices`, `RetryAfterCanBeShort` |
| waiting `Retry-After` seconds outlasts a block | at most a second or a whole number of seconds is left of it | `HeaderSuffices` |
| the user index stays right on registration | a registered connection is not given another user id | `AddedRight`, `EventHub.Register` |

## Model

| member | source | states |
|---|---|---|
| ChunkedCoding.ToHex | sovereign/server.py:48 | the hexadecimal length denotes the number it was printed from and consists of hex digits only |
| ChunkedCoding.HexLength | sovereign/server.py:48 | a number below 16 to the k prints in at most k digits, which is why a size line always fits the reader's line limit |
| ChunkedCoding.ParseSizeHex | sovereign/parser.py:74-79 | a size line of hex digits, in either case and with leading zeros, with or without extension, is read as the number it denotes |
| ChunkedCoding.LenientSizes | sovereign/parser.py:77 | the reader takes more than 1*HEXDIG: for every hex number, leading zeros included, a sign, negative ones included, or a `0x` prefix is accepted |
| ChunkSizes.SizeExactly | sovereign/parser.py:74-79 | a line is read as a number if and only if, without its extension and surrounding whitespace, it is an optional sign, an optional `0x`, and hex digits with at most single underscores between them; the number is the one they denote |
| ChunkSizes.BadSizeRefused | sovereign/parser.py:76-79 | a stream whose next line stands for no number is refused with 400 by both decoders |
| ChunkedCoding.StepChunk | sovereign/parser.py:73-90 | one well-formed chunk at the head of a stream is consumed exactly: data out, the following bytes left, or 413 if it goes over the limit |
| ChunkedCoding.RoundTrip | sovereign/parser.py:69-94 | every well-formed trailer-free encoding followed by anything decodes to exactly the concatenated chunk data and its length, leaving exactly what follows; over the limit it is refused with 413 |
| ChunkedCoding.WriteChunks | sovereign/server.py:45-50 | the writer's loop sends one size line, data and line break for each nonempty chunk, then the last chunk |
| ChunkedCoding.WriterIsWellFormed | sovereign/server.py:45-50 | everything the writer sends is a well-formed encoding whose payload is the concatenation of the chunks |
| ChunkedCoding.WriterRoundTrip | sovereign/server.py:45-50 | what the writer sends, followed by anything, is read back by both decoders as the concatenation of the chunks with the following bytes untouched |
| ChunkedCoding.StepsAgree | sovereign/async_server.py:59-75 | on plain lines one round of the asyncio decoder equals one round of the blocking one, every rejection included |
| ChunkedCoding.DecodersAgree | sovereign/async_server.py:55-76 | on every stream whose lines are plain the two decoders return the same body, total, rest and error, wherever in the stream they fail |
| ChunkedCoding.WireIsPlain | sovereign/async_server.py:55-76 | every well-formed trailer-free encoding is such a stream |
| ChunkedCoding.DecodersDifferOnMissingTrailer | sovereign/async_server.py:67-69 | they do differ when the stream ends right after the last size line: asyncio accepts, the blocking decoder reports a closed connection |
| SocketReaders.SocketReader.RecvSome | sovereign/parser.py:16-27 | yields the next piece or the error in which the stream ends; the bytes are conserved |
| SocketReaders.SocketReader.ReadUntil | sovereign/parser.py:29-37 | cuts the stream right after the first occurrence of the marker, wherever it lies across pieces; a marker that ends within limit + 1 bytes is found and one beyond limit + 4096 is refused with 431, whatever the pieces; failure leaves the stream as it was; the buffer stays bounded |
| Pieces.SearchIs | sovereign/parser.py:29-37 | for every way of cutting a stream, the search conserves the stream, leaves less than one piece in the buffer, and its answer is bounded by the stream alone: success, 431 and the end are told apart up to the window |
| Pieces.PiecesMatterExactly | sovereign/parser.py:30-33 | two ways of cutting one stream make the search answer differently if and only if the marker ends in the window between limit + 1 bytes and one piece beyond the limit |
| Pieces.TakeIs | sovereign/parser.py:42-53 | for every way of cutting a stream, taking n bytes gives exactly the next n and conserves the stream, or fails; a negative n cuts the buffer by Python's slice rules |
| SocketReaders.SocketReader.ReadExact | sovereign/parser.py:42-53 | takes exactly n bytes off the stream, or uses it up and fails; for a negative n, Python's slice of the buffer |
| SocketReaders.SocketReader.ReadExactBody | sovereign/parser.py:55-67 | the body is exactly the next bytes of the stream, in memory or spooled by size; the rest stays unread |
| SocketReaders.SocketReader.ReadChunkedBody | sovereign/parser.py:69-94 | the loop computes the decoding of buffer and pieces, for every size `int()` accepts; wherever the pieces make no difference that is the whole-stream decoding, rest included |
| ChunkedPieces.CutDecodes | sovereign/parser.py:69-94 | for every way of cutting a stream the decoding of the pieces is the whole-stream decoding wherever that is determined, sizes of -4095 and below included |
| ChunkedPieces.NegativeTakeExactly | sovereign/parser.py:42-46 | after a size line, two ways of cutting one stream make a negative size take different bytes if and only if the buffer can hold more than that many bytes of what follows |
| ChunkedPieces.NegativeSizesMatter | sovereign/parser.py:77-90 | for every size from -4094 to -1, two ways of cutting one stream of which one is accepted with an empty body and the other is not |
| ChunkedPieces.SizeIsLength | sovereign/parser.py:84-86 | however the stream is cut, the announced total never exceeds the limit, and grows with the body exactly as long as no negative size is read |
| ChunkedPieces.LimitKept | sovereign/parser.py:84-94 | an accepted body has the announced size, and so keeps the body limit, if and only if no negative size was read; otherwise it is longer than announced |
| ChunkedPieces.LimitMissed | sovereign/parser.py:77-90 | a chunk of size -n, n at least 4095, before any well-formed encoding lets a body of up to n bytes more than the limit in, however it is cut, and is refused with 413 beyond that |
| ChunkedPieces.StepWithLine | sovereign/parser.py:73-79 | once a line has been cut off, one round of the whole-stream decoder is decided by that line and the bytes after it |
| AsyncBodyReaders.AsyncBodyReader.NextLine | sovereign/async_server.py:59 | a line with its line feed, the rest of the stream at its end, or an untranslated exception |
| AsyncBodyReaders.AsyncBodyReader.ReadExact | sovereign/async_server.py:42-48 | exactly the next n bytes, or the end of the stream |
| AsyncBodyReaders.AsyncBodyReader.ReadChunkedBody | sovereign/async_server.py:55-76 | the loop computes the asyncio whole-stream decoding and leaves what follows |
| HeaderBlock.ParseHeaderBlock | sovereign/parser.py:96-141 | the loop with its early refusals computes the parsing function, with every status code |
| HeaderBlock.AddField | sovereign/parser.py:128-136 | adding a field is refused exactly for a second Host, Content-Length or Transfer-Encoding, and otherwise keeps the map the combination of the fields so far |
| HeaderBlock.AddLinesExact | sovereign/parser.py:119-136 | a list of lines is accepted exactly when each is a legal field line and no framing field is repeated; the result is the fields in order and their combination |
| HeaderBlock.TokenCharsExactly | sovereign/utils.py:7 | the characters of a token are those of section 5.6.2 of RFC 9110 |
| HeaderBlock.LegalExactly | sovereign/parser.py:120-132 | a line is taken if and only if it is empty, or not folded and, up to its first colon a token and behind it a value, both within the limits |
| HeaderBlock.RequestLineExactly | sovereign/parser.py:101-114 | a request line is taken if and only if it is a method, a target in origin form and HTTP/1.1 with single spaces between them, within the limit |
| HeaderRefusals.FieldsRefused | sovereign/parser.py:119-136 | the field lines are refused with 431 if and only if an oversized one comes before any other fault, and with 400 for every other fault |
| HeaderRefusals.StatusExactly | sovereign/parser.py:98-140 | a block is refused with 414, 505 or 431 if and only if its request line is too long, its version another one, its lines too many or one of them oversized before any other fault; all else is refused with 400 |
| HeaderBlock.HeadExact | sovereign/parser.py:96-141 | the block is accepted if and only if it meets a declarative description (one Host, at most one framing field, legal lines, limits); each map entry is the in-order ", " join of that name's values |
| HeaderBlock.NoEarlyBlank | sovereign/parser.py:39-40 | a rendered head contains no blank line before its end, so reading up to the first one takes exactly the head |
| HeaderBlock.HeadRoundTrip | sovereign/parser.py:96-141 | every well-formed request line and field list within the limits parses back from its rendering: order kept, names in lower case, method in upper case |
| HeaderBlock.MethodMayEndInLineFeed | sovereign/parser.py:109 | the method of an accepted block is a token if and only if it holds no line feed |
| HeaderBlock.LineFeedMethodAccepted | sovereign/utils.py:7 | every head that is otherwise accepted is accepted with a line feed after its method |
| HeaderBlock.LineFeedExample | sovereign/parser.py:105-110 | a block with the method "GET" and a line feed is accepted |
| RequestParser.SuperscriptLength | sovereign/parser.py:148-151 | a superscript digit passes the digit test of Content-Length and makes the conversion raise |
| RequestParser.ReadHeaders | sovereign/parser.py:39-40 | takes the stream up to and including the first blank line, and refuses a head more than one piece beyond the limit |
| RequestParser.ReadBody | sovereign/parser.py:145-152 | the body the head announces is the one buffer and pieces hold by its framing, and what follows stays unread; wherever the pieces make no difference it is a function of the stream |
| RequestParser.ParseRequest | sovereign/parser.py:143-153 | the request is a function of buffer and pieces, and of the unread stream wherever those make no difference; the reader is left at exactly what follows it |
| RequestParser.ParseCutIs | sovereign/parser.py:143-153 | the two functions agree: what is determined by the stream is what every way of cutting it gives |
| RequestParser.HeadRefused | sovereign/parser.py:29-40 | however the stream is cut: without a blank line it is refused for its length or for the way it ends, a head more than one piece beyond the limit with 431, and one within the limit with whatever is wrong with it |
| RequestParser.ReceiveRequest | sovereign/parser.py:10-14 | on a fresh connection the request, the rest or the error is that function of the pieces received, and of the bytes alone wherever those make no difference |
| RequestParser.ChunkedRequest | sovereign/parser.py:143-153 | a rendered head followed by any well-formed chunked body is received as that head and payload, in memory or spooled by size, leaving what follows, or refused with 413 |
| RequestParser.LengthRequest | sovereign/parser.py:143-153 | the same for a declared Content-Length |
| RequestParser.PrintedLengthRequest | sovereign/parser.py:148-152 | in particular a body announced with its length in decimal |
| RequestParser.BodylessRequest | sovereign/parser.py:145-152 | a rendered head that announces no length, and no transfer encoding or one other than chunked, is received with an empty body; it needs nothing behind its blank line and takes nothing of what follows |
| RequestParser.LengthRefused | sovereign/parser.py:148-152 | a declared length that is no number is refused with 400, digits that `int()` does not know and too many of them make it raise, and too few bytes are answered with how the socket ends |
| WebSocketFrames.BigRoundTrip | sovereign/websocket.py:147-149 | k big-endian bytes of a number that fits denote that number |
| WebSocketFrames.BigEndian | sovereign/websocket.py:81-84 | the most significant byte comes first |
| WebSocketFrames.LengthRoundTrip | sovereign/websocket.py:77-84 | in each of the three forms the length, the mask bit and the size of the extension read back |
| WebSocketFrames.MaskTwice | sovereign/websocket.py:90-91 | masking twice with the same key is the identity |
| WebSocketFrames.XorExactly | sovereign/websocket.py:91 | a masked bit is set exactly where byte and mask differ |
| WebSocketFrames.FrameRoundTrip | sovereign/websocket.py:73-92 | a client frame in any length form, flag bits and mask is read as its opcode and unmasked payload, leaving what follows |
| WebSocketFrames.ServerFrameRoundTrip | sovereign/websocket.py:141-150 | a sent frame is parsed back by a client to its opcode and payload, leaving what follows |
| WebSocketFrames.ServerFramesRoundTrip | sovereign/websocket.py:141-150 | any concatenation of sent frames is split back into exactly those frames |
| WebSocketFrames.CloseFrameReads | sovereign/websocket.py:158-160 | the close frame reads as opcode 8 with the status code and at most 120 bytes of reason |
| WebSocketFrames.RecvOne | sovereign/websocket.py:93-104 | a frame that is not a close is delivered, answered by a pong, or noted as a pong, and receiving goes on behind it |
| WebSocketFrames.RecvFrames | sovereign/websocket.py:72-104 | for every sequence of masked frames without a close, with room in the queue: repeated `recv` yields exactly the messages in order and queues exactly one pong per ping with its payload, in order |
| WebSocketFrames.RecvUntilClose | sovereign/websocket.py:72-104 | up to the first close frame, which closes the session; what follows it is never looked at |
| WebSocketFrames.RecvGrows | sovereign/websocket.py:50-57 | whatever the client sends, nothing queued is lost or reordered, the queue keeps its bound, and a closed session stays closed and untouched |
| WebSocketFrames.UnmaskedCloses | sovereign/websocket.py:78-80 | a frame without a mask closes the session with 1002 and this reason |
| WebSocketFrames.LargeCloses | sovereign/websocket.py:85-87 | a frame over the limit, in any length form, closes it with 1009 before its payload is read |
| WebSocketFrames.FullQueueCloses | sovereign/websocket.py:53-57 | a ping that cannot be answered, because the session is closed or the queue full, leaves it closed; nothing more is queued or read |
| WebSocketFrames.CutFrameStarves | sovereign/websocket.py:59-70 | a stream that ends anywhere within a frame leaves the session as it was |
| WebSocketFrames.CloseExactly | sovereign/websocket.py:152-166 | closing queues as many of close frame and stop mark, in this order, as there is room for; no frame for a code of more than two bytes |
| WebSocketFrames.HeartbeatExactly | sovereign/websocket.py:99-103 | over any frames: the pending ping is answered, and the time of the last pong set, if and only if one of them is a pong with its payload, or any pong if none is pending |
| WebSocketSessions.Unmask | sovereign/websocket.py:89-91 | unmasking in place gives the masked payload's inverse |
| WebSocketSessions.WebSocketSession.ReadExact | sovereign/websocket.py:59-70 | exactly the next n bytes whatever the pieces, or failure if there are not that many |
| WebSocketSessions.WebSocketSession.EnqueueFrame | sovereign/websocket.py:50-57 | appends, or raises when closed, or closes with 1008 when full |
| WebSocketSessions.WebSocketSession.CloseWith | sovereign/websocket.py:152-170 | closes once, queuing close frame and stop mark as far as there is room; no frame for a code of more than two bytes |
| WebSocketSessions.WebSocketSession.SendFrame | sovereign/websocket.py:141-150 | queues exactly the frame that `ServerFrameRoundTrip` is about |
| WebSocketSessions.WebSocketSession.Ping | sovereign/websocket.py:122-125 | remembers the payload, then sends it |
| WebSocketSessions.WebSocketSession.ReceiveFrame | sovereign/websocket.py:73-92 | one frame off the stream, unmasked; an unmasked or too large one closes the session with 1002 or 1009 |
| WebSocketSessions.WebSocketSession.Recv | sovereign/websocket.py:72-104 | the recursive loop equals the whole-stream meaning for every fragmentation, and ends because the stream gets shorter |
| TokenBucket.TokenBucketLimiter.ConsumeMemory | sovereign/security.py:52-61 | answer and new dictionary for one request |
| TokenBucket.TokenBucketLimiter.ConsumeSqlite | sovereign/security.py:63-77 | answer and new table for one request, eviction included |
| TokenBucket.StepMirrors | sovereign/security.py:52-77 | one request, at most d late, keeps the table a copy of the dictionary without buckets that any request to come finds full, and both answer alike |
| TokenBucket.EvictionIsInvisible | sovereign/security.py:52-77 | on every run of any keys with timestamps at most d late, 2 * d + window not exceeding the row age, the evicting table gives the same admissions, tokens and retry hints as the dictionary |
| TokenBucket.Potential | sovereign/security.py:52-61 | from any bucket level, a run that ends in an admitted request admits at most that level plus the refill |
| TokenBucket.RateBound | sovereign/security.py:52-61 | between two admitted requests of a key, both included, at most capacity plus rate times elapsed time are admitted, among any other keys and with timestamps in any order |
| TokenBucket.MemoryKeepsRate | sovereign/security.py:52-61 | in every run, whatever the order of its timestamps, the rate bound holds between any two admitted requests of one key |
| TokenBucket.SqliteRateBound | sovereign/security.py:63-82 | the table answers like the dictionary and keeps the same rate on every run whose timestamps are at most that late |
| TokenBucket.SqliteInOrder | sovereign/security.py:63-77 | in particular on every run in time order, for every limit |
| Admission.AdmittedExactly | sovereign/security.py:52-61 | on every run, whatever the order of its timestamps: a request is admitted if and only if every request of its key up to it leaves a whole token, that is, the capacity and what has flowed in since then, less the admissions in between; the tokens left behind are the least of these |
| Admission.SqliteAdmittedExactly | sovereign/security.py:63-77 | the same for the table, on runs whose timestamps are not too late |
| LateRequests.LateBreaks | sovereign/security.py:75-82 | beyond that lateness, for every number of requests and every window, a run that respects it and breaks the rate |
| LateRequests.LatenessExactly | sovereign/security.py:63-82 | for every bound on the lateness: all runs within it are answered like the dictionary, and all keep the rate, if and only if twice the bound plus one window does not exceed the row age |
| TokenBucket.AdmittedFrom | sovereign/security.py:52-61 | a request is admitted if and only if it comes at or after the moment the bucket next holds a token; a refusal does not move that moment, and the hint names it |
| TokenBucket.PollsAreFree | sovereign/security.py:52-61 | any number of refused requests of a key, among any requests of others, leaves its admission moment where it was |
| TokenBucket.RetryIsExact | sovereign/security.py:52-61 | after a refusal and any number of further refused polls, a request is admitted if and only if it comes at or after the announced moment |
| TokenBucket.SqliteRetryIsExact | sovereign/security.py:63-77 | the same for the table, between any refusal and later request of a run whose timestamps are not too late |
| TokenBucket.RetryAfterSuffices | sovereign/security.py:84-94 | the whole seconds of the header reach the hint exactly under the stated condition |
| TokenBucket.RetryAfterCanBeShort | sovereign/security.py:84-94 | a refusal after which they do not |
| BruteForce.BruteForceProtector.Status | sovereign/security.py:144-154 | forgets an expired block, else reports the row |
| BruteForce.BruteForceProtector.Reset | sovereign/security.py:156-158 | the key's row is gone, all others stay |
| BruteForce.BruteForceProtector.RecordFailure | sovereign/security.py:160-171 | counts, blocks from the last allowed attempt on, purges stale rows |
| BruteForce.BruteForceProtector.Run | sovereign/security.py:178-208 | reply, table, pauses before and after the handler and Retry-After of one guarded call, for every way the handler can end |
| BruteForce.DelayGrows | sovereign/security.py:173-176 | more attempts never make the pause shorter, and no pause exceeds the maximum |
| BruteForce.DelayExactly | sovereign/security.py:173-176 | there is no pause before the third failure; then the first is the base, and each further one the base times the one before, up to the maximum |
| BruteForce.PausesExactly | sovereign/security.py:178-208 | which pauses a call makes and what it announces, for every row its key can have |
| BruteForce.HeaderSuffices | sovereign/security.py:182-205 | the whole seconds of the header outlast the block exactly when at most one second or a whole number of them is left |
| BruteForce.HeaderExactly | sovereign/security.py:182-205 | the header holds the whole part of the time, at least one second |
| BruteForce.StepKeepsBlock | sovereign/security.py:144-208 | during a block a call of that key is refused and changes nothing; no other key's failure or purge touches the row |
| BruteForce.BlockHolds | sovereign/security.py:144-208 | over every later run, each call of a blocked key that starts before the end of the block is refused without reaching the handler, and the block is not extended |
| BruteForce.Lockout | sovereign/security.py:160-208 | the failure that completes the allowed number locks the key for the block time after it |
| BruteForce.RefusedExactly | sovereign/security.py:144-154 | a call is refused if and only if the row of its key holds a block that outlasts its start |
| BruteForce.RefusedOnlyWhenBlocked | sovereign/security.py:144-208 | after every sequential run from an empty table a call is refused only within the block time of a failure of its key that was at least the max_attempts-th in a row; every other call is handled |
| BruteForce.OthersExactly | sovereign/security.py:160-171 | of the rows of other keys, a counted failure drops exactly those not updated for more than a day and more than four block times; every other call leaves them all |
| BruteForce.ReplyAt | sovereign/security.py:178-208 | the i-th reply of a run is the reply in the state its earlier calls have left |
| BruteForce.StepKeeps | sovereign/security.py:144-208 | every call keeps the row in step with the key's failure history |
| BruteForce.FailuresAreSpread | sovereign/security.py:144-208 | in every sequential run from an empty table, any max_attempts + 1 consecutive failures of a key that reach the handler span at least the block time |
| Multipart.Headers | sovereign/multipart.py:72-81 | the loop builds the header map of a part, last of a name winning, or refuses |
| Multipart.ParseDisposition | sovereign/multipart.py:61-69 | the loop builds kind and parameters |
| MultipartParts.HeadersExactly | sovereign/multipart.py:72-81 | header lines are read if and only if each is empty or has a colon and no stray line break, else refused with 400; a name has the value its last line gives it |
| MultipartParts.ParamsExactly | sovereign/multipart.py:61-69 | a parameter has the value, without quotes, that the last piece with its name gives it |
| MultipartParts.FieldExactly | sovereign/multipart.py:130-141 | a part is read as a field if and only if its header lines are fine and its disposition is form data with a name and without a file name |
| MultipartParts.FileExactly | sovereign/multipart.py:130-147 | as a file if and only if there is a file name as well; its type is the declared one in lower case, or octets |
| MultipartParts.PartRefused | sovereign/multipart.py:130-136 | every other part is refused with 400 |
| Multipart.Parse | sovereign/multipart.py:100-159 | the loop over parts computes the parsing function, with every limit and status, fields decoded |
| Multipart.AcceptedIsSafe | sovereign/multipart.py:145-153 | a file that passes the checks is within the size limit and does not start like an executable or a script |
| Multipart.ParsedFilesAreSafe | sovereign/multipart.py:100-159 | whatever the body, an accepted form has at most max_files files, each safe in that sense and stored under its name |
| Multipart.NotAForm | sovereign/multipart.py:103-111 | without an acceptable boundary, or without the delimiter in the body, the request is refused |
| UploadTypes.SniffExactly | sovereign/multipart.py:40-58 | for every content, the type sniffed is the one the table of magic bytes gives it |
| UploadTypes.StatusExactly | sovereign/multipart.py:145-153 | a file is kept if and only if it is not too large, shows no executable or script and, unless mismatches are allowed, shows no type other than its declared one where that is an image, PDF or ZIP; else it is refused with 413 or 415 |
| UploadTypes.UploadIs | sovereign/multipart.py:154-158 | what is stored of a file: names, declared type, content, and the type it shows |
| MultipartRoundTrip.BoundaryReads | sovereign/multipart.py:101-107 | the boundary, bare or quoted, is found in the header |
| Multipart.BoundaryExactly | sovereign/multipart.py:101-107 | for every header: the boundary is that of the leftmost match, if it is ASCII, has at most 200 bytes and no line break; one that is not ASCII makes the parser raise, all else is refused with 400 |
| MultipartRoundTrip.PartReads | sovereign/multipart.py:121-138 | one encoded part, content empty or ending in line breaks included, is read as its name, file name, type and content |
| Utf8.DecodeEncode | sovereign/multipart.py:140 | every text survives encoding and decoding |
| Utf8.EncodeDecodeExactly | sovereign/multipart.py:140 | bytes survive decoding with replacement and encoding if and only if they are well-formed UTF-8 |
| Utf8.MarkersPass | sovereign/multipart.py:140 | decoding, even with replacement, neither creates nor destroys an ASCII marker |
| MultipartRoundTrip.PartsRoundTrip | sovereign/multipart.py:118-158 | from any progress, the encoded parts add exactly their decoded fields and their files |
| MultipartRoundTrip.RoundTrip | sovereign/multipart.py:100-159 | every list of parts within the limits whose headers and contents do not contain the delimiter, and whose files are welcome, comes back exactly: fields decoded, files as bytes with their declared type and the type they show, whatever preamble and epilogue |
| MultipartRoundTrip.FormRefused | sovereign/multipart.py:127-153 | a form whose first parts are let in and whose next is not is refused with that part's status: 413 for one part or file too many or too large, 415 for a type that is not welcome; whatever comes after it |
| MultipartRoundTrip.TooManyParts | sovereign/multipart.py:127-129 | in particular every form with more than max_parts parts is refused with 413 |
| MultipartRoundTrip.TooManyFiles | sovereign/multipart.py:142-144 | and every form with more than max_files files |
| MultipartRoundTrip.TextComesBack | sovereign/multipart.py:139-141 | a field whose content is an encoded text comes back as that text |
| MultipartRoundTrip.NoFieldHasDelimiter | sovereign/multipart.py:118-141 | whatever the request says, no field of an accepted form contains the delimiter |
| MultipartRoundTrip.LastFieldWins | sovereign/multipart.py:139-141 | under each name stands the decoded content of the last field with it |
| MultipartRoundTrip.SingleFieldExact | sovereign/multipart.py:109-140 | a single field is received decoded if and only if its content does not contain the delimiter, and its bytes come back if and only if besides they are well-formed UTF-8 |
| MultipartRoundTrip.InvalidByteIsReplaced | sovereign/multipart.py:140 | the byte 0xFF is received as the replacement character and does not come back |
| Validation.ValidateModel | sovereign/validation.py:106-123 | the loop over fields computes the validating function |
| Validation.ValidatedExactly | sovereign/validation.py:106-123 | a dataclass is built, with given values, if and only if every key is a field and the values are, in field order, those the fields are given, coerced to their types, or, only where none is given, have by default |
| Validation.UnknownKeyRefused | sovereign/validation.py:111-114 | a key that is none of the fields is refused, and makes the validator raise if it, or another such key, is not a string |
| ScalarMeanings.BoolExactly | sovereign/validation.py:23-32 | a text is accepted as true if and only if, up to case and surrounding whitespace, it is one of the four words for it, likewise as false, and every other text is refused; of other values only booleans are accepted |
| ScalarMeanings.IntExactly | sovereign/validation.py:33-39 | an integer stays, a float becomes its integer part towards zero, a text the number the library parses; an infinite float crashes the validator, all else is refused |
| ScalarMeanings.FloatExactly | sovereign/validation.py:40-46 | a float stays, an integer is converted, a text becomes the number the library parses; an integer too large crashes the validator, all else is refused |
| ScalarMeanings.TextExactly | sovereign/validation.py:47-56 | texts and byte strings stay, other values are shown and texts encoded, where the library can |
| ScalarMeanings.UnchangedExactly | sovereign/validation.py:57-61 | the other types change nothing, and take only their own |
| ContainerMeanings.UnionExactly | sovereign/validation.py:67-78 | a union takes `None` as it is, if that is an alternative, and else what the first alternative that does not refuse makes of the value |
| ContainerMeanings.ItemsExactly | sovereign/validation.py:80-91 | a collection type takes a collection of any kind, or a single value, if and only if its parameter takes every item and a set can hash it; number and order stay |
| ContainerMeanings.HashableExactly | sovereign/validation.py:87-90 | a value can be hashed if and only if nothing within it is a list, set, dictionary or dataclass |
| ContainerMeanings.DictExactly | sovereign/validation.py:93-97 | a dictionary type takes a dictionary if and only if every entry can be stored; the result is what storing them in turn makes |
| ContainerMeanings.FilledExactly | sovereign/validation.py:97 | in which every key stands once, with the value of the last entry that has it |
| Validation.CoerceSound | sovereign/validation.py:63-104 | whatever is returned inhabits the requested type, for every value and every environment of possibly recursive dataclasses with well-typed defaults and homogeneous tuples |
| Validation.FixedTupleNotChecked | sovereign/validation.py:80-86 | a fixed-length tuple is coerced by its first parameter only, with the value that shows it |
| Validation.TupleExactly | sovereign/validation.py:80-86 | whatever is returned at a tuple type inhabits it if and only if the type is variadic or has no parameters |
| Validation.UnionNotIdempotent | sovereign/validation.py:67-78 | on a union, coercing twice can differ from coercing once |
| Idempotence.CoerceIsIdempotent | sovereign/validation.py:63-104 | on every type without dataclasses whose only unions are optional ones, coercing a coerced value returns it unchanged |
| Idempotence.UnionOfTwoExactly | sovereign/validation.py:67-78 | a union of two such types is idempotent if and only if the first leaves alone or refuses whatever only the second accepts, the step towards the next |
| ScalarUnions.ScalarUnionExactly | sovereign/validation.py:20-78 | under named facts about number parsing, `str()` and `encode()`: of all unions of two scalar types exactly `bool`-or-`str`, `int`-or-`float` and `bytes`-or-`str`, in this order, are not idempotent |
| ScalarUnions.RewritesSomething | sovereign/validation.py:23-56 | for each of the three the value that shows it: 1, "1.5" and 1 |
| Schemas.SchemaForDataclass | sovereign/validation.py:179-190 | the loop builds the properties in order and requires exactly the fields without default |
| SchemaMeaning.SchemaExactly | sovereign/validation.py:158-190 | a value is valid against the schema generated for a type if and only if the type describes it, by recursion on the type, for every type without recursive dataclasses |
| SchemaAgreement.NoCrash | sovereign/validation.py:63-104 | on plain types a JSON value whose conversions are possible makes the validator raise nothing but a validation error |
| SchemaAgreement.GoodIsConvertible | sovereign/validation.py:36-55 | conversely, at every type, whatever is accepted needed only possible conversions |
| SchemaAgreement.NeverRefused | sovereign/validation.py:158-177 | a JSON value valid against the schema of a plain type never gets a validation error |
| SchemaAgreement.Agreement | sovereign/validation.py:158-177 | a JSON value valid against the schema generated for a plain type is accepted by the validator if and only if the conversions it needs are possible, and crashes it otherwise |
| SchemaAgreement.HashTypeHashesAll | sovereign/validation.py:87-90 | scalars, and unions, variadic tuples and frozen sets of them, hash whatever they accept, so sets of them are plain |
| SchemaLimits.ConversionsExactly | sovereign/validation.py:40-56 | a valid integer is accepted as a float if and only if it is not too large, a valid string as bytes if and only if it can be encoded; otherwise the validator crashes |
| SchemaLimits.InfinityCrashes | sovereign/validation.py:36-46 | an infinite number is valid for an integer or a float, and crashes the validator if the integer is tried first |
| SchemaLimits.RepresentableExactly | sovereign/validation.py:63-104 | a JSON value crashes the validator at no plain type, and is accepted at every plain type whose schema it meets, if and only if all its numbers, strings and parts are representable |
| SchemaLimits.SetExactly | sovereign/validation.py:87-90 | a set of plain items crashes on no convertible JSON value if and only if the item type hashes whatever it accepts |
| SchemaLimits.DictExactly | sovereign/validation.py:172-173 | a dictionary type whose values agree accepts all its valid convertible values if and only if its key type accepts every string |
| SchemaLimits.NeverAgree | sovereign/validation.py:176-177 | a bare class, and `None` on its own, is described as a string and refuses every one |
| SchemaLimits.KeyTypeDisagrees | sovereign/validation.py:172-173 | key types are not described: a valid object can be refused |
| SchemaLimits.SetOfListsDisagrees | sovereign/validation.py:170-171 | a set of lists is described as an array of arrays and makes the validator crash |
| Injection.Router.Collect | sovereign/router.py:137-141 | the loop over a signature yields the arguments of uncached evaluation and touches only what they depend on |
| Injection.Router.InvokeProvider | sovereign/router.py:134-145 | calls a provider once, with the value of uncached evaluation; storing it makes both caches exact again |
| Injection.Router.ResolveDependency | sovereign/router.py:147-161 | through overrides, three scopes and two caches the value is that of uncached evaluation; a cached singleton is handed out as it is, whatever the request |
| Injection.Router.CallHandler | sovereign/router.py:163-172 | a handler's injected arguments are those of uncached evaluation |
| Injection.Router.Serve | sovereign/router.py:134-175 | over a whole sequence of requests every handler gets uncached values, each singleton is called at most once ever and each per-request provider at most once per request |
| Injection.ArgsExactly | sovereign/router.py:137-141 | every parameter not left to its default receives, in its turn, the request or the value of the provider it names, of the one that stands in for it where it is overridden |
| Injection.ScopeExactly | sovereign/router.py:148-152 | a marker is resolved with the first scope given: its own, that of the provider called, that of the one it stands in for; transient if none is |
| Injection.RequestFreeSame | sovereign/router.py:153-156 | a provider that depends on injected values only is worth the same for every request |
| Injection.SingletonsServeAll | sovereign/router.py:153-156 | so cached singletons are right for every later request |
| Injection.AfterCall | sovereign/router.py:153-160 | after a call and its store, a cache holds exactly the called providers of its scope, once each |
| Injection.Router.TwoRequests | sovereign/router.py:153-156 | two requests that ask a new router for one singleton are both given the value made for the first, which is the second's own if the provider is request-free |
| Injection.RequestFreeExactly | sovereign/router.py:137-145 | for given graph and overrides, a provider is worth the same to any two requests, whatever the bodies compute, if and only if neither it nor anything it depends on takes the request |
| Injection.SingletonMustNotTakeRequest | sovereign/router.py:138-139 | a singleton that takes the request can be worth different things to two requests, so the condition is needed |
| Blocklist.SQLiteJWTBlocklist.Revoke | sovereign/sessions.py:31-40 | table row and cache entry, or refusal of an empty id |
| Blocklist.SQLiteJWTBlocklist.IsRevoked | sovereign/sessions.py:42-54 | a fresh cache entry's answer, else the table's, which is then cached |
| Blocklist.SQLiteJWTBlocklist.CleanupExpired | sovereign/sessions.py:56-61 | exactly the expired rows go, the cache is emptied |
| Blocklist.StepKeeps | sovereign/sessions.py:31-61 | every operation of this or another instance keeps table and cache true to the revocations |
| Blocklist.TableIsExact | sovereign/sessions.py:31-61 | after every run a row is live exactly when the latest revocation has not expired |
| Blocklist.WrongYes | sovereign/sessions.py:42-54 | a wrong "revoked" is given only after expiry, and for less than the cache time after the id was last seen revoked |
| Blocklist.WrongNo | sovereign/sessions.py:42-54 | with other instances revoking, a wrong "not revoked" never outlives the missed revocation by the cache time |
| Blocklist.NoIsRight | sovereign/sessions.py:42-54 | with one instance "not revoked" is never wrong |
| Blocklist.AnswerIsKept | sovereign/sessions.py:42-54 | for the time to live after a look at the table its answer is given again, whatever other instances do |
| JwtAuth.JWTAuth.VerifyToken | sovereign/auth.py:52-83 | the chain of checks computes the verifying function, asking the blocklist only when all else is in order; a segment that is not ASCII raises |
| JwtAuth.JWTAuth.RevokeToken | sovereign/auth.py:85-92 | only a token that verifies is revoked, under its own id and expiry; table and cache afterwards |
| JwtAuth.RevokeTokenIsRun | sovereign/auth.py:85-92 | that is a lookup followed by a revocation, from which the next two start |
| JwtAuth.DecodedExactly | sovereign/auth.py:52-72 | what passes structure, algorithm, key and signature is exactly what is the two segments signed under the configured key its header names |
| JwtAuth.VerifyExactly | sovereign/auth.py:52-83 | a token is accepted if and only if it is signed under the configured key its header names, its expiry is not before the first clock reading, a configured issuer and audience are its own, and its id is empty or given as revoked neither by a fresh cache entry nor, without one, by an unexpired row |
| JwtAuth.RefusedExactly | sovereign/auth.py:52-82 | every other token is refused with 401, except one that is not ASCII and names a configured key, which raises |
| JwtAuth.AskedExactly | sovereign/auth.py:80-81 | the blocklist is asked only for a token in order, and about its id |
| JwtAuth.RevokedStaysRejected | sovereign/auth.py:52-92 | from any state, once revoked a token is rejected after every run of revocations, lookups and cleanups of this and other instances that do not lower its expiry, unless the two clock readings straddle the expiry |
| JwtAuth.RejectedForeverExactly | sovereign/auth.py:73-82 | in every state one instance reaches: rejected at every later moment, after every run of operations of this and other instances that do not lower the id's expiry below the token's, if and only if its latest revocation has at least the token's expiry, or the token has expired |
| JwtAuth.AcceptedAfterRevokeExactly | sovereign/auth.py:73-92 | after a revocation and any such run, a check with two clock readings accepts if and only if the token is in order, the first reading has not passed its expiry, the second has passed the revocation's, and the cache is stale |
| JwtAuth.AcceptedAcrossExpiry | sovereign/auth.py:73-82 | a state and readings with which that happens |
| TaskQueue.SQLiteTaskQueue.Enqueue | sovereign/tasks.py:44-49 | a pending row at the end, its id the count of rows |
| TaskQueue.SQLiteTaskQueue.Claim | sovereign/tasks.py:69-75 | the oldest due pending task, and only it, is marked as running |
| TaskQueue.SQLiteTaskQueue.Complete | sovereign/tasks.py:82-91 | done, or one attempt more and pending again or dead, with the next moment |
| TaskQueue.SQLiteTaskQueue.RunOnce | sovereign/tasks.py:68-91 | one whole round, tasks enqueued by the execution included |
| TaskQueue.RoundIsRun | sovereign/tasks.py:68-91 | that round is a claim, the enqueues and a finish of the runs below |
| TaskQueue.ClaimExactly | sovereign/tasks.py:69-75 | an idle worker takes the oldest pending task whose moment has come, and none if there is none; a busy one takes none |
| TaskQueue.NewTaskIsTaken | sovereign/tasks.py:44-49 | a new task is due at once: as soon as no older one is, an idle worker takes it |
| TaskQueue.DelayGrows | sovereign/tasks.py:88 | the delay doubles with each attempt, from a second up to a minute |
| TaskQueue.LedgerIsConsistent | sovereign/tasks.py:68-91 | in every single-worker run the executions of a task are its attempts plus one if done or running, pending tasks have attempts left, and the execution after the k-th failure comes at least min(60, 2^k) later |
| TaskQueue.ExecutionsBounded | sovereign/tasks.py:85-88 | no task is executed more than max_retries times |
| TaskQueue.DoneAndDeadAreFinal | sovereign/tasks.py:70 | done and dead tasks, and their ledgers, never change again |
| TaskQueue.EveryExecutionCounts | sovereign/tasks.py:68-91 | each finished execution lowers the sum of remaining attempts, each failure by exactly one, and the sum never goes below zero |
| Hub.Connection.SendEvent | sovereign/eventhub.py:32-38 | the queue and what was received stay a gap-free prefix of what was sent; an overflow closes an SSE session for good, a wrapper of a WebSocket session raises on it and from then on |
| Hub.Connection.Close | sovereign/eventhub.py:40-46 | closes an SSE session once, with a stop mark if there is room; a wrapper closes the raw session and keeps its own mark |
| Hub.Connection.Take | sovereign/eventhub.py:48-60 | the consumer gets the next event sent, or the end |
| Hub.AddedRight | sovereign/eventhub.py:94-100 | adding a connection keeps the user index right if and only if it was not registered under another user |
| Hub.RemovedRight | sovereign/eventhub.py:110-114 | removing a connection from its user's entry keeps the index right for the remaining ones |
| Hub.EventHub.Register | sovereign/eventhub.py:90-101 | new sessions and users, and exactly when the indexes stay right |
| Hub.EventHub.Unregister | sovereign/eventhub.py:103-118 | gone from sessions, every room and its user, empty entries dropped, closed |
| Hub.EventHub.Join | sovereign/eventhub.py:120-124 | a registered member of the room |
| Hub.EventHub.JoinRaw | sovereign/eventhub.py:91-92 | a raw WebSocket session is wrapped anew, and the new wrapper becomes a member |
| Hub.EventHub.Leave | sovereign/eventhub.py:126-130 | no member any more, an empty room is dropped |
| Hub.EventHub.SendMany | sovereign/eventhub.py:168-179 | each live target with room ends with the event at the end of its queue and stays open, a live SSE session without room is closed for good, the others are unregistered with nothing queued, their rooms left, and nobody else is touched |
| Hub.EventHub.Broadcast | sovereign/eventhub.py:158-161 | the same for the members of a room |
| Hub.EventHub.SendUser | sovereign/eventhub.py:163-166 | the same for the connections of a user |
| Hub.EventHub.BroadcastToRejoined | sovereign/eventhub.py:91-92 | a raw session that has joined a room twice is queued a broadcast twice |

## Left out

- Sockets, TLS, thread pools, asyncio scheduling and logging; every method is atomic, so no interleaving of threads.
- SQLite, JSON, HMAC, base64, SHA-1, scrypt and compression: tables are maps and the functions are parameters.
- Rounding of floats: finite floats are reals. That conversions to and from floats, `str()` and `encode()` can fail is modelled.
- `send_headers` and the header part of responses, static files, templates, HTML5 ranges, CORS, CSRF, cookies, ACME, sandbox, ORM, CLI: single-branch code or I/O.
- Route patterns, the middleware chain and the OpenAPI document: they rest on Python's `re` and on closures.
- Keep-alive: a connection gets a fresh reader for each request (sovereign/server.py:156), so bytes already buffered for the next request are lost there; the theorems are about one reader.
- ChunkedPieces.CutDecodes: says nothing of the whole stream where the answer depends on how it was cut, which is for a line that ends between limit + 1 bytes and one piece beyond the limit, and for a size from -4094 to -1 with more than that many bytes after it; there `DecodeCut` gives the answer for each way of cutting.
- RequestParser.ParseCutIs: likewise, also for a head that ends in that window.
- SocketReaders.SocketReader.ReadUntil: a reader whose search has failed may hold more than a valid one; the connection is given up then, and nothing is said about reading on.
- Reading from a socket after this side has shut it down: the stream is what the peer sends.
- HeaderBlock.ParseHeaderBlock: upper and lower case are those of ISO 8859-1; a method consists of ASCII characters.
- AsyncBodyReaders.AsyncBodyReader.ReadChunkedBody: the head reader and the length-framed body of the asyncio server are not modelled.
- TokenBucket.TokenBucketLimiter.ConsumeSqlite: the lock and the transaction are not modelled; that the clock is read before the lock appears as timestamps out of order.
- BruteForce.BruteForceProtector.Run: the clock is read once at the start of a call, once when the handler has finished and once when the answer is made, where the code reads it twice in a row; that the pauses take their time is left to the moments given; a pause whose power is too large for a float (2.0 ** 1024) makes the code raise before the maximum is applied.
- Validation.ValidateModel: `__post_init__` and frozen (hashable) dataclasses, Python's equality of 1 and True and inequality of NaN with itself as keys or set members, removal of duplicates in sets, and annotations other than the modelled ones.
- Schemas.SchemaForDataclass: recursive dataclasses, on which the generator does not come to an end.
- Injection.Router.ResolveDependency: the asynchronous resolution, cyclic provider graphs, and providers resolved under two scopes.
- JwtAuth.JWTAuth.VerifyToken: headers and payloads that are not JSON objects, and an expiry that is not a number, which raise another exception; `create_token`.
- Validation.TupleExactly: `tuple[()]`, which Python's `get_args` does not tell from a tuple without parameters, and which is given nonempty tuples, too.
- JwtAuth.RevokedStaysRejected: stated for runs that do not revoke the same id with an earlier expiry; `RejectedForeverExactly` shows that this is needed.
- WebSocketSessions.WebSocketSession.Recv: Python's recursion limit, which about a thousand control frames in a row exceed because `recv` calls itself for each; one clock reading for all pongs of a call; the handshake, the heartbeat and writer threads, and the reassembly of fragmented messages, which the code does not do either.
- Hub.EventHub.SendMany: presence data, and that two wrappers of one raw session share its send queue: each has the room of its own.
- TaskQueue.SQLiteTaskQueue.RunOnce: several workers and a crash between claim and completion, after which a task would stay running.
