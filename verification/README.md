# NATS client protocol: wire codec and sans-IO connection

Two components and their composition.

- **The wire codec** (`nats_codec`): the printer for client commands, the
  incremental decoder for client and server commands over a growing buffer, the
  header block, and the dispatcher that consumes one frame per call. The format
  is the NATS Client Protocol; headers are those of NATS ADR-4.
- **The connection** (`nats_sans_io`): four states, a backlog replayed on INFO,
  a transmit queue, a SID counter, subscribers by SID and three timers, driven
  by explicit events.

What a pure body decoder computes is a function. What the code does in place is
a method of a class or over a mutable buffer (`SliceSpliterator`,
`CharSpliterator`, `BytesMut`, `NatsBinding`), proved equal to the function that
specifies it; the theorems are about those functions. `Connection.World` is the
connection together with what its environment sees of it: channel contents,
responses, everything enqueued, everything polled.

| file | module | contents |
|---|---|---|
| wrappers.dfy, bytes.dfy, text.dfy, utf8.dfy, commands.dfy | Wrappers, Bytes, Text, Utf8, Commands | splitting iterators, decimal numbers, what UTF-8 is, command datatypes |
| headers.dfy | Headers | header lines and blocks, parser and printer |
| bodies.dfy, inplace.dfy, decoder.dfy | Bodies, InPlace, Decoder | body decoders as functions and in the code's own form, the dispatcher and its errors |
| halfframes.dfy, streams.dfy, pieces.dfy | HalfFrames, Streams, Pieces | whole streams and their cuttings, for any codec: when a cut matters |
| encoder.dfy, roundtrip.dfy, exact.dfy, cuts.dfy | Encoder, RoundTrip, Exact, Cuts | the printer, round trips of client commands and their exact conditions, partial input |
| server.dfy, serverexact.dfy | ServerFrames, ServerExact | the same for server commands, laid out as the protocol says |
| spelling.dfy, wire.dfy | Spelling, Wire | the printed bytes, written as text |
| grammar.dfy, servergrammar.dfy | Grammar, ServerGrammar | what the decoders do with every line, well formed or not, written as text |
| connection.dfy, runs.dfy, routing.dfy, timers.dfy | Connection, Runs, Routing, Timers | the state machine and theorems over all runs |
| endtoend.dfy, inbound.dfy | EndToEnd, Inbound | runs, printed, cut, decoded; server bytes, cut, decoded, delivered |

The round trips relate the printer to the decoder; Wire and Grammar relate each of
them to the text of the protocol, with no constant, splitter or stripping function
of the model in between; numbers, UTF-8 and header lines have exact laws of their
own (`Text.ParseUsizeExactly`, `Utf8.ValidUtf8Exactly`, `Headers.HeaderAccepted`).
In Grammar a buffer without a line, one with a line but
no verb, and one with a verb and a line of space-separated fields are all there
are (`Grammar.EveryLineIsSpaced`, `Grammar.VerbIsInLine`).

What the code does beyond, or against, its own wording:

- A frame cut inside HPUB or HMSG can make the decoder panic: the "too short"
  test counts the metadata line towards `total_bytes`
  (nats_codec/src/decoding/hpub.rs:55-65, nats_codec/src/decoding/hmsg.rs:67-72).
  `RoundTrip.HalfHPubExactly` and `ServerFrames.HalfHMsgExactly` say which
  prefixes panic, `HalfFrames.HPubTooEarlyExactly` and
  `HalfFrames.HMsgTooEarlyExactly` which buffers; `Cuts.ClientCutsExactly` and
  `ServerFrames.ServerCutsExactly` say, for every stream and every cutting, that
  it comes back if and only if no cut lies there. `Cuts.HPubCutExample` and
  `ServerFrames.HalfHMsgExample` are instances.
- A payload containing CRLF, which the protocol allows, is rejected in PUB
  (`Exact.PayloadWithCrlfIsRejected`, `Exact.PubWithCrlfExample`) and in MSG
  (`ServerExact.MsgExactly`, `ServerExact.MsgWithCrlfExample`).
- An HPUB with a payload that is not UTF-8 makes the decoder panic
  (nats_codec/src/decoding/hpub.rs:66; `Exact.HPubExactly`,
  `Exact.HPubNotUtf8Example`).
- A header value that ends in a space or holds a colon is printed but does not
  come back (`Headers.HeaderRoundTrip`, `Headers.HeaderExamples`).
- `Exact.TransportsExactly` and `ServerExact.ServerTransportsExactly` are the
  whole conditions under which a command comes back.
- The two bytes behind an HPUB's or HMSG's payload are dropped unseen: they need
  not be CRLF (nats_codec/src/decoding/hpub.rs:79-82; `Grammar.HPubBlocks`,
  `ServerGrammar.HMsgBlocks`).
- `FatalError` is documented to drop the frame (nats_codec/src/decoding/mod.rs:92-94);
  the dispatcher consumes nothing for it (nats_codec/src/decoder.rs:80). The
  model follows the code.

## Model
| member | source | states |
|---|---|---|
| Bytes.SlicesOfTerminated | nats_codec/src/decoding/mod.rs:101-113 | CRLF-free lines, each terminated, before a CRLF-free rest are exactly what the CRLF splitter yields, from any offset |
| Bytes.TerminatedSlices | nats_codec/src/decoding/mod.rs:101-113 | conversely the yielded slices, terminated, followed by a CRLF-free rest are the input |
| Bytes.SlicesAreCrlfFree | nats_codec/src/decoding/mod.rs:101-113 | no yielded slice contains a CRLF |
| Bytes.NextSliceIsStable | nats_codec/src/decoding/mod.rs:101-113 | a slice once found stays the same when bytes are appended |
| Bytes.SliceSpliterator.Next | nats_codec/src/decoding/mod.rs:105-112 | one step of the iterator: returns the next slice and its end offset and moves the running offset there |
| Bytes.CharSpliterator.Next | nats_codec/src/decoding/mod.rs:119-126 | one step splits off the first of the remaining parts; it yields nothing exactly when no separator is left |
| Bytes.MemmemCrlf | nats_codec/src/decoding/mod.rs:105 | the forward scan finds the first CRLF at or after the offset, or the end |
| Bytes.SplitJoin | nats_codec/src/decoding/mod.rs:115-127 | splitting at a byte undoes joining parts that do not contain it |
| Bytes.JoinSplit | nats_codec/src/decoding/mod.rs:115-127 | joining undoes splitting, for every input |
| Bytes.SplitCounts | nats_codec/src/decoding/mod.rs:115-127 | there is one slice per separator, plus the rest |
| Text.ParseDecimal | nats_codec/src/encoder.rs:48-66 | a printed number is read back exactly when it fits 64 bits |
| Text.DecimalDigits | nats_codec/src/encoder.rs:48-66 | a printed number consists of the ASCII digits of its decimal places, with no superfluous one in front |
| Text.ParseUsizeExactly | nats_codec/src/decoding/publish.rs:31-36 | a token is read as a number if and only if it is that number in decimal, behind any zeros and at most one plus sign, and below 18446744073709551616 |
| Text.Utf8Concat | nats_codec/src/decoding/hpub.rs:62-66 | UTF-8 text is closed under concatenation, so a block of UTF-8 headers passes the whole-block check |
| Utf8.ValidUtf8Exactly | nats_codec/src/decoding/hpub.rs:62-66 | a byte string passes the UTF-8 check if and only if it is the concatenation of encoded Unicode scalar values |
| Utf8.Utf8Examples | nats_codec/src/decoding/hpub.rs:62-66 | a two-byte character passes; an overlong form, a surrogate and half a character do not |
| Headers.HeaderAccepted | nats_codec/src/decoding/header.rs:50-71 | a line is accepted, with this name and value, if and only if it is the name, a colon and the value with at most one space at each end, dropped exactly when one is there, neither part with a colon and both in UTF-8 |
| Headers.HeaderRefused | nats_codec/src/decoding/header.rs:50-71 | every other line: refused for its colons exactly when there is not one, else for the name or the value that is not UTF-8 |
| Headers.HeaderWithoutSpace | nats_codec/src/decoding/header.rs:59 | "Bar:Baz" keeps its value, "Bar:  Baz" loses one of two spaces |
| Headers.HeaderRoundTrip | nats_codec/src/decoding/header.rs:50-71 | a printed header line reads back if and only if neither part has a colon and the value does not end in a space |
| Headers.HeaderExamples | nats_codec/src/decoding/header.rs:50-71 | a value of one space comes back empty, a value holding a colon is refused |
| Headers.HeadersExact | nats_codec/src/decoding/header.rs:17-48 | a block of exactly the announced length is accepted, with this map, if and only if it is the version line, good nonempty lines and one final empty line |
| Headers.VersionIsRequired | nats_codec/src/decoding/header.rs:17-28 | a block of two bytes or more is refused for a missing version if and only if the version line is not in front |
| Headers.BlockRefused | nats_codec/src/decoding/header.rs:30-48 | behind the version and any good lines: refused for a missing further line, for an empty line that is not the end, for a last line that is not empty, and with its own error for a bad line |
| Headers.CollectValues | nats_codec/src/decoding/header.rs:30-45 | every name ends up with exactly its own values in line order, also when names interleave |
| Headers.HeaderBlockRoundTrip | nats_codec/src/encoder.rs:85-92 | a printed block reads back as the same map for every enumeration order of the hash map |
| Headers.ParseHeadersInPlace | nats_codec/src/decoding/header.rs:17-48 | the loop over the splitter, updating the map, returns what the specification says on every input |
| Bodies.HPubIsStable | nats_codec/src/decoding/hpub.rs:10-85 | a frame, an error or a UTF-8 panic of the HPUB decoder is unchanged when bytes are appended |
| Bodies.HMsgIsStable | nats_codec/src/decoding/hmsg.rs:11-92 | the same for HMSG |
| Bodies.PubIsStable | nats_codec/src/decoding/publish.rs:8-54 | the same for PUB |
| Bodies.MsgIsStable | nats_codec/src/decoding/msg.rs:8-57 | the same for MSG |
| Bodies.ClientBodiesContained | nats_codec/src/decoding/sub.rs:6-39 | no client body decoder but HPUB's panics or takes more bytes than it was given |
| Bodies.ServerBodiesContained | nats_codec/src/decoding/err.rs:6-24 | no server body decoder but HMSG's panics or takes more bytes than it was given |
| Bodies.BodiesWithoutLine | nats_codec/src/decoding/info.rs:12-14 | without CRLF every body decoder waits, but that of INFO refuses |
| InPlace.PubBody | nats_codec/src/decoding/publish.rs:8-54 | both iterators, asked step by step in the code's order, give the specified PUB result on every body |
| InPlace.SubBody | nats_codec/src/decoding/sub.rs:6-39 | the same for SUB |
| InPlace.UnsubBody | nats_codec/src/decoding/unsub.rs:6-35 | the same for UNSUB |
| InPlace.HPubBody | nats_codec/src/decoding/hpub.rs:10-85 | the same for HPUB, whose size checks and slices are those of the specification |
| InPlace.MsgBody | nats_codec/src/decoding/msg.rs:8-57 | the same for MSG, both lines taken before the fields are split |
| InPlace.HMsgBody | nats_codec/src/decoding/hmsg.rs:11-92 | the same for HMSG |
| Decoder.Decoding | nats_codec/src/decoder.rs:52-92 | the table loop returns the specified outcome; a frame or an error takes exactly its bytes off the front of the buffer, anything else leaves the buffer as it was |
| Decoder.BodyHasCrlf | nats_codec/src/decoder.rs:56-78 | a matched prefix ends before the first CRLF, so every body decoder called from the dispatcher finds one |
| Decoder.DecodeIsStable | nats_codec/src/decoder.rs:52-92 | for every sound table, a frame with its consumed count, an error or a UTF-8 panic survives any appended bytes |
| Decoder.DecodeProgresses | nats_codec/src/decoder.rs:73-79 | a frame consumes at least five bytes and never more than the buffer |
| Decoder.ClientTableIsSound | nats_codec/src/decoder.rs:33-49 | all seven client entries are stable, consume at least a CRLF and have CR-free prefixes |
| Decoder.ServerTableIsSound | nats_codec/src/decoder.rs:14-30 | the same for the seven server entries |
| Decoder.DispatchErrorsExactly | nats_codec/src/decoder.rs:52-92 | for every table whose body decoders report only errors of their own: the unknown-command error occurs exactly when there is a first line and every prefix was compared in vain, and skips up to behind its CR; the soft-limit error exactly when 65535 bytes hold no line; every error but the first consumes nothing |
| Decoder.UnknownCommandExactly | nats_codec/src/decoder.rs:33-49 | client commands: unknown exactly when there is a first line, at least eight bytes and none of the seven verbs |
| Decoder.ServerUnknownCommandExactly | nats_codec/src/decoder.rs:14-30 | server commands: unknown exactly when there is a first line, at least five bytes and none of the seven verbs |
| Decoder.ClientEntryErrors | nats_codec/src/decoder.rs:69-87 | a fatal error of an entry of the client table is that verb's own; PING and PONG have none |
| Decoder.ServerEntryErrors | nats_codec/src/decoder.rs:69-87 | the same for the server table; PING, PONG and +OK have none |
| Decoder.OnlyHPubPanics | nats_codec/src/decoder.rs:69-87 | when decoding client bytes panics, the buffer starts with HPUB |
| Decoder.OnlyHMsgPanics | nats_codec/src/decoder.rs:69-87 | when decoding server bytes panics, the buffer starts with HMSG |
| HalfFrames.HPubTooEarlyExactly | nats_codec/src/decoding/hpub.rs:10-85 | client bytes make the decoder slice or advance past the end if and only if they are the front of an HPUB that has announced its sizes and reached the total, but not the end of the frame, with nothing else wrong so far |
| HalfFrames.HMsgTooEarlyExactly | nats_codec/src/decoding/hmsg.rs:11-92 | server bytes likewise, if and only if they are such a front of an HMSG |
| Streams.ChunkIndependence | nats_codec/src/decoder.rs:52-92 | for every codec and every cutting: same frames, same first error, same unconsumed bytes as uncut, provided that no prefix of the stream that ends at a cut decodes to a premature panic |
| Streams.PrematureExactly | nats_codec/src/decoder.rs:52-92 | feeding in pieces ends in a premature panic if and only if decoding some prefix that ends at a cut does |
| Streams.WholeResumesCut | nats_codec/src/decoder.rs:52-92 | for every cutting without exception: decoding what it left in the buffer completes it to the uncut result |
| Streams.CuttingMattersExactly | nats_codec/src/decoder.rs:14-50 | for any bytes and any cutting: it ends in a premature panic if and only if at some cut the undecoded bytes are the front of an HPUB (client bytes) or HMSG (server bytes) that has reached its announced total |
| Pieces.CutsExactly | nats_codec/src/decoder.rs:52-92 | for any codec and any frames with known texts: fed in pieces, the frames come back whole if and only if every cut lies where the frame it is in is waited for |
| Streams.FramesAreBounded | nats_codec/src/decoder.rs:52-92 | decoding a buffer to the end terminates and returns at most one frame per five consumed bytes |
| Encoder.EncodeCommand | nats_codec/src/encoder.rs:14-30 | every command appends exactly its encoding, which Wire spells out, to the buffer and leaves what was there |
| Encoder.EncodeHPublish | nats_codec/src/encoder.rs:68-99 | the writes and nested header loops append the first line, the block in enumeration order and the payload |
| Wire.PingPongWire | nats_codec/src/encoder.rs:133-145 | the bytes PING and PONG print |
| Wire.ConnectWire | nats_codec/src/encoder.rs:35-46 | the bytes CONNECT prints around its JSON text |
| Wire.SubWire | nats_codec/src/encoder.rs:101-116 | the bytes SUB prints, with and without queue group |
| Wire.UnsubWire | nats_codec/src/encoder.rs:118-131 | the bytes UNSUB prints, with and without limit |
| Wire.PubWire | nats_codec/src/encoder.rs:48-66 | the bytes PUB prints, with and without reply subject |
| Wire.HPubWire | nats_codec/src/encoder.rs:68-99 | the bytes HPUB prints: first line, version line, one "name: value" line per value for every order of the names, empty line, payload |
| Wire.VerbSpelling | nats_codec/src/decoder.rs:19-46 | the twelve verbs of both tables, as text |
| RoundTrip.DispatchByVerb | nats_codec/src/decoder.rs:65-78 | each verb, in whatever case, reaches its own decoder past all earlier entries and their length tests |
| RoundTrip.CommandRoundTrip | nats_codec/src/encoder.rs:14-145 | decoding the encoding of any well-formed command (CONNECT and HPUB included), followed by any bytes, for any header order, returns it and consumes exactly the encoding |
| RoundTrip.EncodingIsPrefixFree | nats_codec/src/encoder.rs:14-145 | no encoding is a strict prefix of another, and equal encodings mean equal commands |
| RoundTrip.StreamRoundTrip | nats_codec/src/encoder.rs:14-145 | any sequence of well-formed commands, concatenated, decodes to the same sequence with an empty buffer |
| RoundTrip.WaitingIsSafe | nats_codec/src/decoder.rs:56-87 | every strict prefix of a well-formed non-HPUB command makes the decoder wait: no error, no frame |
| RoundTrip.HalfHPubExactly | nats_codec/src/decoding/hpub.rs:55-65 | a strict prefix of an HPUB is waited for exactly while its first line is incomplete or fewer than `total_bytes` bytes follow the verb; every longer strict prefix panics |
| Exact.TransportsExactly | nats_codec/src/decoder.rs:52-92 | for every command, header order and trailing bytes: decoding the encoding returns the command if and only if it is well formed and its first line fits the window |
| Exact.HeadersExactlyWellFormed | nats_codec/src/decoding/header.rs:17-71 | a printed block reads back as the map it was printed from if and only if all names and values are well formed and no value list is empty |
| Exact.SizesAreOrderFree | nats_codec/src/encoder.rs:78-91 | the printed block has the same length for every enumeration order, so announced sizes are right for all orders or none |
| Exact.PayloadWithCrlfIsRejected | nats_codec/src/decoding/publish.rs:36-54 | an encoded PUB whose payload contains CRLF is rejected as malformed, whatever follows |
| Exact.PubWithCrlfExample | nats_codec/src/decoding/publish.rs:36-54 | PUB with the two payload bytes CR and LF is rejected |
| Exact.HPubExactly | nats_codec/src/decoding/hpub.rs:62-66 | an HPUB that is all the protocol asks for is read back if its payload is UTF-8, and makes the decoder panic if it is not |
| Exact.HPubNotUtf8Example | nats_codec/src/decoding/hpub.rs:62-66 | an HPUB with the one payload byte 0xFF makes the decoder panic |
| Cuts.ClientCutsExactly | nats_codec/src/decoder.rs:52-92 | for every sequence of well-formed commands, HPUB included, every header order and every cutting: exactly these commands come back, with nothing left over, if and only if no cut lies inside an HPUB behind its first line and behind `total_bytes` bytes from the verb |
| Cuts.AnyCutRoundTrip | nats_codec/src/decoder.rs:52-92 | so streams without HPUB, which is all the connection sends, can be cut anywhere |
| Cuts.HPubCutExactly | nats_codec/src/decoding/hpub.rs:55-82 | the case of one HPUB cut in two: it comes back if and only if the cut is before the first line's end, before `total_bytes` bytes behind the verb, or at the end |
| Cuts.HPubCutExample | nats_codec/src/decoding/hpub.rs:55-82 | a 28-byte HPUB that decodes whole and does not when cut behind byte 17 |
| ServerFrames.ServerRoundTrip | nats_codec/src/decoder.rs:14-30 | each of the seven server commands, well formed and laid out as the protocol says, followed by any bytes, is read back and consumed exactly, for every header order |
| ServerFrames.ServerStreamRoundTrip | nats_codec/src/decoder.rs:14-30 | any sequence of them, sent back to back, is read back with an empty buffer |
| ServerFrames.ServerWaitingIsSafe | nats_codec/src/decoding/msg.rs:16-20 | every strict prefix of a well-formed server command but HMSG is waited for: no error, no frame |
| ServerFrames.HalfHMsgExactly | nats_codec/src/decoding/hmsg.rs:64-92 | a strict prefix of an HMSG is waited for exactly while its first line is incomplete or fewer than `total_bytes` bytes follow the verb; every longer strict prefix panics |
| ServerFrames.ServerCutsExactly | nats_codec/src/decoder.rs:52-92 | for every sequence of well-formed server commands and every cutting: exactly these commands are read, with nothing left over, if and only if no cut lies inside an HMSG behind its first line and behind `total_bytes` bytes from the verb |
| ServerFrames.HalfHMsgExample | nats_codec/src/decoding/hmsg.rs:64-92 | a 30-byte HMSG that decodes whole and panics on its first 19 bytes |
| ServerExact.ServerTransportsExactly | nats_codec/src/decoder.rs:52-92 | for every server command, header order and trailing bytes: the layout is read back as the command if and only if the command is well formed and its first line fits the window |
| ServerExact.MsgExactly | nats_codec/src/decoding/msg.rs:16-57 | a MSG with good tokens and the right size is read back if its payload is free of CRLF, and rejected as malformed if it is not |
| ServerExact.MsgWithCrlfExample | nats_codec/src/decoding/msg.rs:16-57 | MSG with the two payload bytes CR and LF is rejected |
| Grammar.PingLine | nats_codec/src/decoding/ping.rs:1-31 | PING in any case: read when nothing stands before CRLF, otherwise waited on |
| Grammar.PongLine | nats_codec/src/decoding/pong.rs:1-31 | the same for PONG |
| Grammar.ConnectLine | nats_codec/src/decoding/connect.rs:1-35 | CONNECT: read as what the JSON parser makes of the line, refused when it makes nothing of it |
| Grammar.SubLine | nats_codec/src/decoding/sub.rs:6-66 | SUB: two or three UTF-8 fields are subject, queue group and SID; any others are refused |
| Grammar.UnsubLine | nats_codec/src/decoding/unsub.rs:6-62 | UNSUB: one field is the SID; two are SID and limit if the limit is a number other than zero; anything else is refused |
| Grammar.UnsubZeroExample | nats_codec/src/decoding/unsub.rs:52-55 | "UNSUB 1 0" is refused |
| Grammar.LowerCaseExample | nats_codec/src/decoder.rs:70-72 | "sub A 1" is read as a SUB |
| Grammar.PubLines | nats_codec/src/decoding/publish.rs:8-87 | PUB: two or three UTF-8 fields whose last is the number of bytes up to the next CRLF are read; any others are refused |
| Grammar.PubWaits | nats_codec/src/decoding/publish.rs:36-38 | without that CRLF: waited for, unless the number of fields or the size is bad |
| Grammar.HPubFieldCount | nats_codec/src/decoding/hpub.rs:24-40 | HPUB with another number of fields than three or four is waited on for ever |
| Grammar.HPubSizes | nats_codec/src/decoding/hpub.rs:42-57 | HPUB with sizes that are no numbers or the wrong way round is refused |
| Grammar.HPubBlocks | nats_codec/src/decoding/hpub.rs:65-128 | HPUB whose two blocks are there: a panic unless both are UTF-8, then refused for its tokens or its header block, then a panic unless two more bytes are there, otherwise read, whatever those two are |
| Grammar.HPubShort | nats_codec/src/decoding/hpub.rs:58-65 | HPUB whose blocks are not there: waited for while fewer bytes than the total follow the verb, else a panic, of which kind the headers decide |
| Grammar.NoLine | nats_codec/src/decoder.rs:56-63 | for either table: with no line in the first 65535 bytes more is waited for, and the soft limit reported once they are all there |
| Grammar.UnknownLine | nats_codec/src/decoder.rs:65-91 | a first line with no client verb: waited on while fewer than eight bytes are there, else dropped up to behind its CR |
| Grammar.EveryLineIsSpaced | nats_codec/src/decoding/mod.rs:115-127 | every line is some fields with one space between them |
| Grammar.VerbIsInLine | nats_codec/src/decoder.rs:74 | a verb a buffer starts with lies within the first line |
| ServerGrammar.ServerPingLine | nats_codec/src/decoding/ping.rs:1-31 | the client reads PING when nothing stands before CRLF |
| ServerGrammar.ServerPongLine | nats_codec/src/decoding/pong.rs:1-31 | and PONG |
| ServerGrammar.OkLine | nats_codec/src/decoding/ok.rs:1-17 | and +OK |
| ServerGrammar.InfoLine | nats_codec/src/decoding/info.rs:6-21 | INFO: read as what the JSON parser makes of the line, refused when it makes nothing of it |
| ServerGrammar.ErrLine | nats_codec/src/decoding/err.rs:6-24 | -ERR: read as the UTF-8 text between two single quotes, refused otherwise |
| ServerGrammar.MsgLines | nats_codec/src/decoding/msg.rs:8-104 | MSG: three or four UTF-8 fields whose last is the number of bytes up to the next CRLF are read; any others are refused |
| ServerGrammar.MsgWaits | nats_codec/src/decoding/msg.rs:16-20 | without that CRLF: waited for, whatever the fields |
| ServerGrammar.MsgExample | nats_codec/src/decoding/msg.rs:8-104 | "MSG F 1 2" with the payload "Hi" is read as that MSG |
| ServerGrammar.HMsgFieldCount | nats_codec/src/decoding/hmsg.rs:22-50 | HMSG with another number of fields than four or five is waited on for ever |
| ServerGrammar.HMsgSizes | nats_codec/src/decoding/hmsg.rs:52-66 | HMSG with sizes that are no numbers or the wrong way round is refused |
| ServerGrammar.HMsgBlocks | nats_codec/src/decoding/hmsg.rs:71-141 | HMSG whose two blocks are there: refused for its tokens or its header block, then a panic unless two more bytes are there, otherwise read |
| ServerGrammar.HMsgShort | nats_codec/src/decoding/hmsg.rs:67-72 | HMSG whose blocks are not there: waited for while fewer bytes than the total follow the verb, else a panic |
| ServerGrammar.ServerUnknownLine | nats_codec/src/decoder.rs:65-91 | a first line with no server verb: waited on while fewer than five bytes are there, else dropped up to behind its CR |
| Connection.NatsBinding.constructor | nats_sans_io/src/lib.rs:66-75 | a new binding awaits INFO with nothing recorded |
| Connection.NatsBinding.Establish | nats_sans_io/src/state.rs:57-101 | INFO brings the connection up with CONNECT queued and replays the whole backlog in order |
| Connection.NatsBinding.HandleServerInput | nats_sans_io/src/state.rs:55-164 | every server command in every state changes the binding as specified |
| Connection.NatsBinding.HandleClientInput | nats_sans_io/src/state.rs:168-247 | every client command in every state: subscribe, unsubscribe, publish, backlog, discard |
| Connection.NatsBinding.PollTransmit | nats_sans_io/src/lib.rs:89-99 | returns and removes the front of the queue while connected, nothing otherwise; nothing else of the binding changes |
| Connection.NatsBinding.HandleSendPingTimeout | nats_sans_io/src/lib.rs:102-131 | enqueues PING and stamps it when none was sent or the interval has passed |
| Connection.NatsBinding.HandleSendPongTimeout | nats_sans_io/src/lib.rs:155-183 | enqueues PONG and clears the pending reply when the delay has passed |
| Connection.NatsBinding.HandleKeepAliveTimeout | nats_sans_io/src/lib.rs:203-225 | gives the connection up when the latest PONG is too old |
| Runs.LossIsExact | nats_sans_io/src/lib.rs:203-225 | the final state of every run, from its events alone: lost if and only if greeted by INFO and some keep-alive call came `keep_alive` or more after the latest PONG before it; likewise for the other three states |
| Runs.DeadStatesAbsorb | nats_sans_io/src/state.rs:153-160 | after a wrong greeting or a lost connection no event changes anything any more |
| Runs.TransmitsConserved | nats_sans_io/src/lib.rs:89-99 | in every run polled plus queued is everything enqueued, CONNECT first; nothing is polled without an INFO greeting; a lost connection sent a prefix of its log |
| Runs.TransmitsExactly | nats_sans_io/src/state.rs:64-102 | while connected, the log apart from PING and PONG is CONNECT followed by the frames of all client commands, early and late, in order |
| Runs.GreetingExactly | nats_sans_io/src/state.rs:64-83 | the first command of every connection is a CONNECT with these flags, field by field |
| Runs.SidsExactly | nats_sans_io/src/state.rs:183-226 | while connected, the counter is one plus the subscriptions, there is one channel and one response for each, numbered in the order asked, the subscribers are exactly the SIDs issued and not given up since, and SID k leads to channel k - 1 |
| Runs.ResponsesAreNumbered | nats_sans_io/src/state.rs:183-194 | in every run and state, without a bound: the k-th response opened the k-th channel and carries the k-th decimal SID modulo the counter's width, no channel is closed, and the log holds one SUB per response |
| Runs.LimitsFollowSubscriptions | nats_sans_io/src/state.rs:196-208 | in every run, at every position of the log that holds a SUB: it carries the SID of the response with the same number, and if that has a limit the next position holds the UNSUB of that SID with that limit |
| Runs.SubscribersHaveChannels | nats_sans_io/src/state.rs:187-194 | in every connected state, without a bound: a subscriber's channel exists and is one that was handed out with its SID |
| Runs.GivenUpStaysGivenUp | nats_sans_io/src/state.rs:212-225 | in every run: a SID issued and given up is not among the subscribers of any later connected state |
| Runs.EarlyEqualsLate | nats_sans_io/src/state.rs:57-101 | client commands before INFO, among polls and timer calls, reach the very same world as the same commands after it |
| Routing.RoutingIsExact | nats_sans_io/src/state.rs:117-142 | in every run each channel holds exactly the MSG and HMSG inputs with its SID that arrived while connected and subscribed, in order |
| Routing.ContentsAreExact | nats_codec/src/lib.rs:100-124 | field by field: the i-th message in a channel has subject, SID, reply subject, payload and headers of the i-th MSG or HMSG routed there, a MSG having no headers |
| Routing.SilenceAfterUnsubscribe | nats_sans_io/src/state.rs:212-225 | once an issued SID is given up its channel never changes again |
| Timers.PingsAreSpaced | nats_sans_io/src/lib.rs:102-131 | for a positive interval, consecutive PINGs are at least one interval apart in every run, whatever the clock does |
| Timers.PingIsExact | nats_sans_io/src/lib.rs:102-131 | the PING handler acts if and only if, while connected, no PING was sent yet or the interval has passed since the latest one |
| Timers.PingRate | nats_sans_io/src/lib.rs:102-131 | so n PINGs span at least n - 1 intervals |
| Timers.TimersInLog | nats_sans_io/src/lib.rs:126-129 | the PINGs and PONGs counted are all there are in the transmit log |
| Timers.PongIsExact | nats_sans_io/src/lib.rs:155-183 | the PONG handler acts if and only if, while connected, a PING was heard since the last PONG and the latest one is at least `pong_delay` old |
| Timers.PongAccount | nats_sans_io/src/lib.rs:155-183 | in every stretch of every run, PONGs sent plus a reply pending at its end never exceed PINGs heard plus a reply pending at its start |
| Timers.PingBetweenPongs | nats_sans_io/src/state.rs:143-147 | between two PONGs lies at least one PING heard |
| Timers.TimersAgree | nats_sans_io/src/lib.rs:102-243 | a deadline polled at any instant not before the run's clock is exactly the instant from which the handler acts, at that and at every later instant; having acted it leaves no deadline that has come |
| Timers.DeadlinesExactly | nats_sans_io/src/lib.rs:135-243 | the three deadlines from the events alone: latest PING sent plus interval, or now when none was; latest PING heard since the last PONG plus delay; latest PONG heard plus keep-alive time |
| EndToEnd.RunsAreTransported | nats_client/src/tokio/connection.rs:53-57 | for every run with good client inputs and every cutting of the bytes sent, the server decodes exactly the polled commands, in order, with nothing left over |
| EndToEnd.ServerSeesAllCommands | nats_sans_io/src/state.rs:167-248 | for a connected, drained run that is, PING and PONG aside, CONNECT and the frames of all client commands in order |
| EndToEnd.Drain | nats_client/src/tokio/connection.rs:53-57 | the driver's loop: while connected it polls the whole queue in order, appends the encodings of exactly these commands and leaves the queue empty; otherwise it does nothing; nothing else of the binding changes |
| Inbound.InboundIsRouted | nats_client/src/tokio/connection.rs:73-82 | server bytes, cut at safe positions and decoded, fed to the connection among any other events: the connection sees exactly the commands sent, each channel holds what Routed says, which is one contiguous stretch of the messages sent under its SID, reaching to the latest while the subscription is live; the messages are those of the MSG and HMSG commands sent, field by field |
| Inbound.InboundIsDelivered | nats_client/src/tokio/connection.rs:73-82 | one batch of server bytes, cut at safe positions, decoded and fed after any run: each channel grows by exactly the messages sent under its SID if the connection is up and the subscription live, and by nothing otherwise; the messages are those of the MSG and HMSG commands sent, field by field |

## Left out
- Tokio sockets, tickers, `select!`, the example programs and the command line: I/O. Only the driver's drain loop is modelled.
- JSON contents of CONNECT and INFO: serde is not part of this model. Its printer and parser are parameters of which nothing is assumed; a CONNECT is well formed if and only if it is printed free of CRLF and parsed back (`Json.Faithful`), which EndToEnd.RunsAreTransported asks of the one CONNECT the client sends.
- Channels: `try_send`, `blocking_send` and the one-shot `unwrap` panic on full or closed channels. Channels are append-only sequences with room and a live receiver.
- Runs.SidsExactly: holds below 2^64 - 1 subscriptions; beyond that the counter wraps (modelled) and SIDs repeat. The same bound is on Runs.TransmitsExactly, Runs.GivenUpStaysGivenUp, Routing.RoutingIsExact, Routing.SilenceAfterUnsubscribe and the end-to-end theorems.
- Decoder.Decoding: reports a panic as an outcome; `reserve`, logging and `dbg!` output are not modelled, nor is a decoder that asks for a definite number of bytes, since none does.
- Resynchronisation after an error: an unknown command skips up to and including the CR only, a fatal error skips nothing. Streams are followed up to the first error.
- Progress on malformed input: PING, PONG and +OK lines with trailing bytes and header frames with a wrong number of fields make the decoder wait for ever.
- Liveness of PONG (each new PING restarts the delay), loss detection before the first PONG, removal of a subscriber after an automatic UNSUB: the code does not provide them.
- `Instant` arithmetic overflow; instants and durations are unbounded.
