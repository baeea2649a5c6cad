# palava-ipc-legacy in Dafny

This project models the bridge that carries palava's legacy PHP IPC protocol onto its command server.

**Requests** travel as `<type>://<aliasedName>/<sessionId>/(<contentLength>)?<content>`:
- The replaying request decoder parses them. It is a checkpointed state machine that replays a stage when bytes are missing.
- The pipeline actually installs a different one, the frame decoder. Its transitions stop after the second slash.
- Two clients format requests: the test client and the blocking socket client.

**Responses** travel as `<mime>://(<contentLength>)?<content>`:
- Two server encoders write them.
- They are read back in two ways: by the client's replaying decoder followed by its JSON header decoder, and by the socket client's byte-at-a-time parser.

**Calls.** Above the wire, a decoded header becomes one of six call objects. Each has its own argument access: lazy JSON arguments, `require`, the stringed view and the cached text.

**Name resolution.** A command name is resolved by:
1. rewriting it with the first alias that prefixes it;
2. looking it up as a class;
3. for the loader only, following `@SupersededBy`.

**Execution.** The executor dispatches by kind. Its job, command and job-adapter wrappers each have their own exception policy.

**Connections and sessions.** The connection handler keeps a channel-to-request map and records an ordered trace of registry events. The session adapter caches a locale, a number format and a collator.

**Modelling conventions:**
- Bytes are a `Byte` newtype.
- Java `String`s are Dafny strings, with an explicit UTF-8 encoder and UTF-16 length.
- `Integer.parseInt`, `Integer.toString` and the `(int)` cast are written out over unbounded integers.
- A Java method that returns or throws becomes a `Result`.
- State that the source mutates becomes an immutable value that is returned. Examples: the decoders' checkpoints, the cached fields of calls and of the session adapter, and the handler's map.
- Foreign code is passed in as functions: org.json parsing, Jackson, the alias rewrite, the session provider, jobs and commands.
- Each of these modules is its own file: `Bytes`, `Decimal`, `Utf8`, `Frames`, `RequestDecoder`, `FrameDecoder`, `ResponseEncoder`, `ClientDecoder`, `ClientFeed`, `NettyClient`, `SocketClient`, `Calls`, `Resolution`, `Execution`, `Handler`, `SessionAdapter`. `Wrappers` holds `Option` and `Result`.

Where the design documentation and the code disagree, the model follows the code:
- OPEN always re-attaches a session and writes nothing back.
- CLOSE only closes the channel and writes no acknowledgement.
- A disconnect only logs, so the request stays in the handler's map.
- The installed frame decoder never gets past the second slash.

## Model

| member | source | states |
|---|---|---|
| `Frames.ValueOf` | src/main/java/de/cosmocode/palava/ipc/legacy/LegacyFrameDecoder.java:199 | `CallType.valueOf` accepts exactly the six upper-case constant names and fails on anything else |
| `Frames.ValueOfName` | src/main/java/de/cosmocode/palava/ipc/legacy/LegacyReplayingDecoder.java:143-145 | `valueOf` inverts `name()` for every call type |
| `Frames.Data` | src/main/java/de/cosmocode/palava/ipc/legacy/LegacyReplayingDecoder.java:185-193 | a content view's bytes are, position by position, the `size` bytes of the backing array starting at its offset |
| `Bytes.ToUpper` | src/main/java/de/cosmocode/palava/ipc/legacy/LegacyReplayingDecoder.java:143-145 | upper-casing keeps the length and maps exactly the ASCII lower-case letters |
| `Bytes.ToLower` | src/test/java/de/cosmocode/palava/ipc/legacy/LegacyNettyClient.java:121 | lower-casing keeps the length and maps exactly the ASCII upper-case letters to their lower-case letters, leaving every other byte alone |
| `Bytes.IndexOf` | src/main/java/de/cosmocode/palava/ipc/legacy/LegacyReplayingDecoder.java:159-167 | the delimiter scan of `readUntil` finds the first occurrence at or after the reader index, or reports that it has not arrived |
| `Bytes.IndexOfFinds` | src/main/java/de/cosmocode/palava/ipc/legacy/LegacyReplayingDecoder.java:159-167 | a field free of the delimiter and followed by it is scanned exactly to its end |
| `Bytes.IndexOfExtend` | src/main/java/de/cosmocode/palava/ipc/legacy/LegacyReplayingDecoder.java:159-167 | appending bytes never changes a scan that succeeded |
| `Decimal.ToInt32` | src/main/java/de/cosmocode/palava/ipc/legacy/LegacyEncoder.java:48 | the `(int)` cast keeps the value modulo 2^32 within the `int` range, and keeps every `int` unchanged |
| `Decimal.Render` | src/main/java/de/cosmocode/palava/ipc/legacy/LegacyContentEncoder.java:65 | `Integer.toString` writes only digits after an optional minus, with no leading zeros |
| `Decimal.ParseInt` | src/main/java/de/cosmocode/palava/ipc/legacy/LegacyReplayingDecoder.java:116-118 | `Integer.parseInt` succeeds only on an optional `+` or `-` followed by at least one digit whose signed value lies inside the `int` range, and the result is that signed value (negated after `-`); anything else fails |
| `Decimal.ParseAccepts` | src/main/java/de/cosmocode/palava/ipc/legacy/LegacyReplayingDecoder.java:116-118 | conversely, every optional `+` or `-` followed by at least one digit parses to its signed value whenever that value is inside the `int` range |
| `Decimal.ParseRender` | src/main/java/de/cosmocode/palava/ipc/legacy/client/LegacyClientFrameDecoder.java:72-76 | parsing what `Integer.toString` wrote gives the number back |
| `Decimal.DigitsValueOfRender` | src/main/java/de/cosmocode/palava/ipc/legacy/LegacyContentEncoder.java:65 | the digits rendered for `n` have the value `n` |
| `Utf8.EncodeChar` | src/test/java/de/cosmocode/palava/ipc/legacy/LegacyNettyClient.java:124 | one code point encodes to the 1 to 4 bytes of UTF-8, with ASCII as itself |
| `Utf8.EncodeAppend` | src/test/java/de/cosmocode/palava/ipc/legacy/LegacyNettyClient.java:120-126 | encoding distributes over concatenation |
| `Utf8.EncodeExcludes` | src/test/java/de/cosmocode/palava/ipc/legacy/LegacyNettyClient.java:120-126 | an ASCII byte occurs in an encoding exactly where its character occurs in the string |
| `Utf8.EncodeNoFF` | src/main/java/de/cosmocode/palava/ipc/legacy/client/LegacySocketIpcClient.java:209-219 | UTF-8 never contains the byte 0xFF |
| `Utf8.Utf16Shorter` | src/main/java/de/cosmocode/palava/ipc/legacy/client/LegacySocketIpcClient.java:104-106 | `String.length()` is at most the UTF-8 byte count, with equality exactly for ASCII strings |
| `Utf8.EncodeText` | src/test/java/de/cosmocode/palava/ipc/legacy/LegacyNettyClient.java:124 | the digits of a formatted number encode back to the same bytes |
| `RequestDecoder.Expect` | src/main/java/de/cosmocode/palava/ipc/legacy/LegacyReplayingDecoder.java:59-79 | a delimiter stage waits without a byte, throws on a wrong byte, and otherwise skips it and moves to the next checkpoint |
| `RequestDecoder.Stage` | src/main/java/de/cosmocode/palava/ipc/legacy/LegacyReplayingDecoder.java:56-131 | each checkpoint reads its element, or waits, or throws, or returns the header |
| `RequestDecoder.Run` | src/main/java/de/cosmocode/palava/ipc/legacy/LegacyReplayingDecoder.java:49-140 | a `decode` call that waits keeps a consistent checkpoint no earlier than where it started; one that returns a header has moved the reader index forward |
| `RequestDecoder.RunContent` | src/main/java/de/cosmocode/palava/ipc/legacy/LegacyReplayingDecoder.java:185-188 | a returned header's content is the declared number of bytes just before the new reader index |
| `RequestDecoder.DecodedView` | src/main/java/de/cosmocode/palava/ipc/legacy/LegacyReplayingDecoder.java:185-193 | an emitted header's content is a view of the decoder's own buffer, sized by the declared length |
| `RequestDecoder.Feed` | src/main/java/de/cosmocode/palava/ipc/legacy/LegacyReplayingDecoder.java:195-202 | the decode loop restarts from `TYPE` after each header and stops at the first wait or exception |
| `RequestDecoder.StageExtend` | src/main/java/de/cosmocode/palava/ipc/legacy/LegacyReplayingDecoder.java:56-129 | a stage that did not wait gives the same result once more bytes arrive |
| `RequestDecoder.RunExtend` | src/main/java/de/cosmocode/palava/ipc/legacy/LegacyReplayingDecoder.java:49-140 | a completed `decode` call gives the same frame once more bytes arrive |
| `RequestDecoder.Resume` | src/main/java/de/cosmocode/palava/ipc/legacy/LegacyReplayingDecoder.java:56-129 | replaying from the reached checkpoint equals starting over from the call's start |
| `RequestDecoder.FeedSplit` | src/main/java/de/cosmocode/palava/ipc/legacy/LegacyReplayingDecoder.java:56-129 | feeding a buffer in two chunks yields the frames of feeding it whole |
| `RequestDecoder.FeedSplitStep` | src/main/java/de/cosmocode/palava/ipc/legacy/LegacyReplayingDecoder.java:195-202 | the split property carries past one decoded frame |
| `RequestDecoder.RoundTrip` | src/main/java/de/cosmocode/palava/ipc/legacy/LegacyReplayingDecoder.java:222-228 | a well-formed request decodes to its type (in any letter case), name, session id, length and content, and consumes exactly its bytes |
| `RequestDecoder.FeedRequests` | src/main/java/de/cosmocode/palava/ipc/legacy/LegacyReplayingDecoder.java:195-202 | requests sent back to back decode independently and in order, and the decoder ends reset to `TYPE` |
| `RequestDecoder.WireIds` | src/main/java/de/cosmocode/palava/ipc/legacy/LegacyReplayingDecoder.java:80-105 | the name and session id sit between their slashes on the wire |
| `RequestDecoder.WireLength` | src/main/java/de/cosmocode/palava/ipc/legacy/LegacyReplayingDecoder.java:106-131 | the length field sits between `(` and `)?` on the wire |
| `FrameDecoder.ReadAndIncrement` | src/main/java/de/cosmocode/palava/ipc/legacy/LegacyFrameDecoder.java:185-189 | the text from the reader index up to the loop index, with the reader index moved onto that byte |
| `FrameDecoder.ByteStep` | src/main/java/de/cosmocode/palava/ipc/legacy/LegacyFrameDecoder.java:103-181 | the loop body per part: `TYPE` scans to `:`, `COLON` and `FIRST_SLASH` check for `/`, and `SECOND_SLASH` skips a byte without advancing |
| `FrameDecoder.Scan` | src/main/java/de/cosmocode/palava/ipc/legacy/LegacyFrameDecoder.java:98-183 | the `for` loop runs to the end of the buffer unless a byte step throws or returns |
| `FrameDecoder.Call` | src/main/java/de/cosmocode/palava/ipc/legacy/LegacyFrameDecoder.java:98-101 | an unreadable buffer yields `null`, and a missing part starts as `TYPE` |
| `FrameDecoder.FrameFeed` | src/main/java/de/cosmocode/palava/ipc/legacy/LegacyFrameDecoder.java:98-183 | Netty's decode loop calls again while the reader index moves |
| `FrameDecoder.ScanEarly` | src/main/java/de/cosmocode/palava/ipc/legacy/LegacyFrameDecoder.java:124-127 | from the first four parts the loop never reaches a later part |
| `FrameDecoder.NeverEmits` | src/main/java/de/cosmocode/palava/ipc/legacy/LegacyFrameDecoder.java:124-127 | from a fresh decoder, no input in any chunking ever yields a header |
| `FrameDecoder.ScanType` | src/main/java/de/cosmocode/palava/ipc/legacy/LegacyFrameDecoder.java:105-111 | bytes before the colon change nothing while the type is scanned |
| `FrameDecoder.ScanSkipping` | src/main/java/de/cosmocode/palava/ipc/legacy/LegacyFrameDecoder.java:124-127 | after the second slash every byte is skipped and the reader index trails by one |
| `FrameDecoder.SwallowsRequest` | src/main/java/de/cosmocode/palava/ipc/legacy/LegacyFrameDecoder.java:105-127 | a buffer with a type and `://` is read up to the type and then skipped to its end without a header |
| `FrameDecoder.ColonAtChunkEnd` | src/main/java/de/cosmocode/palava/ipc/legacy/LegacyFrameDecoder.java:105-117 | a chunk ending right after the colon makes the next call throw |
| `FrameDecoder.DropsRequest` | src/main/java/de/cosmocode/palava/ipc/legacy/LegacyFrameDecoder.java:124-127 | every well-formed request is dropped by the installed decoder although the replaying decoder reads it |
| `ResponseEncoder.ContentHeader` | src/main/java/de/cosmocode/palava/ipc/legacy/LegacyContentEncoder.java:68-73 | the header buffer is sized exactly as mime plus `://(` plus length digits plus `)?` |
| `ResponseEncoder.EncodeContent` | src/main/java/de/cosmocode/palava/ipc/legacy/LegacyContentEncoder.java:54-87 | the output is mime name, `://(`, the byte count, `)?` and the bytes unchanged; other messages pass through |
| `ResponseEncoder.EncodeLegacy` | src/main/java/de/cosmocode/palava/ipc/legacy/LegacyEncoder.java:44-65 | the header uses `toString()` and the declared length cast to `int`; a negative buffer estimate throws; other messages pass through |
| `ResponseEncoder.EncodersAgree` | src/main/java/de/cosmocode/palava/ipc/legacy/LegacyEncoder.java:47-59 | both encoders write the same frame when `toString()` is the name and the declared length is the byte count |
| `ClientDecoder.Expect` | src/main/java/de/cosmocode/palava/ipc/legacy/client/LegacyClientFrameDecoder.java:48-71 | each delimiter is consumed with `readByte` and must be the expected byte |
| `ClientDecoder.Stage` | src/main/java/de/cosmocode/palava/ipc/legacy/client/LegacyClientFrameDecoder.java:39-99 | each client checkpoint reads its element, or waits, or throws, or returns the header |
| `ClientDecoder.Run` | src/main/java/de/cosmocode/palava/ipc/legacy/client/LegacyClientFrameDecoder.java:114-119 | a returned header's content is exactly `length` bytes ending at the new reader index |
| `ClientDecoder.RoundTrip` | src/main/java/de/cosmocode/palava/ipc/legacy/client/LegacyClientFrameDecoder.java:43-92 | a response decodes to its mime text and content, consuming exactly its bytes |
| `ClientFeed.Feed` | src/main/java/de/cosmocode/palava/ipc/legacy/client/LegacyClientFrameDecoder.java:89-92 | the decode loop restarts from `MIME_TYPE` after each response and stops at the first wait or exception, with a consistent checkpoint inside the buffer |
| `ClientFeed.RunConsumes` | src/main/java/de/cosmocode/palava/ipc/legacy/client/LegacyClientFrameDecoder.java:43-92 | a `decode` call that passes a delimiter before returning a response has consumed at least one byte |
| `ClientFeed.FirstResponse` | src/main/java/de/cosmocode/palava/ipc/legacy/client/LegacyClientFrameDecoder.java:43-92 | the first of several concatenated responses decodes to its mime text and content and ends exactly where the next begins |
| `ClientFeed.FeedResponses` | src/main/java/de/cosmocode/palava/ipc/legacy/client/LegacyClientFrameDecoder.java:89-92 | responses sent back to back decode in order to their mime texts and contents, and the decoder ends reset to `MIME_TYPE` at the end of the last one |
| `ClientDecoder.ContentEncoderRoundTrip` | src/main/java/de/cosmocode/palava/ipc/legacy/LegacyContentEncoder.java:75-83 | what the content encoder writes for a mime name without `:`, the client decoder reads back as that mime and those bytes |
| `ClientDecoder.LegacyEncoderFraming` | src/main/java/de/cosmocode/palava/ipc/legacy/LegacyEncoder.java:48-59 | the client reads only the declared number of bytes, and the rest is left for the next response |
| `ClientDecoder.Classify` | src/main/java/de/cosmocode/palava/ipc/legacy/client/LegacyClientHeaderDecoder.java:66-74 | `[` gives a list parse, `{` a map parse, and any other first character (or none) an error |
| `ClientDecoder.DecodeClientHeader` | src/main/java/de/cosmocode/palava/ipc/legacy/client/LegacyClientHeaderDecoder.java:57-82 | other messages and non-JSON mimes pass through; the `limit()`-sized copy underflows exactly for a view with an offset; otherwise the content is classified |
| `ClientDecoder.HeaderDecoderUnderflows` | src/main/java/de/cosmocode/palava/ipc/legacy/client/LegacyClientHeaderDecoder.java:61-64 | a JSON response read by the client decoder never reaches Jackson as written |
| `ClientDecoder.HeaderDecoderReadsContent` | src/main/java/de/cosmocode/palava/ipc/legacy/client/LegacyClientHeaderDecoder.java:61-74 | copying `remaining()` bytes, the response's content reaches Jackson classified by its first byte |
| `NettyClient.LowerName` | src/test/java/de/cosmocode/palava/ipc/legacy/LegacyNettyClient.java:121 | the lower-cased type name keeps its length and has no `:` |
| `NettyClient.FormatRequest` | src/test/java/de/cosmocode/palava/ipc/legacy/LegacyNettyClient.java:82-126 | TEXT and BINARY raise the assertion error; otherwise the request is `lower(type)://name/session/(n)?json` with `n` the UTF-8 byte count |
| `NettyClient.FormatSessionless` | src/test/java/de/cosmocode/palava/ipc/legacy/LegacyNettyClient.java:74-76 | the three-argument send uses the empty session id |
| `NettyClient.EncodeRequest` | src/test/java/de/cosmocode/palava/ipc/legacy/LegacyNettyClient.java:120-126 | the UTF-8 bytes of the formatted request are its fields' bytes in wire order |
| `NettyClient.LowerNameReadsBack` | src/main/java/de/cosmocode/palava/ipc/legacy/LegacyReplayingDecoder.java:143-145 | the server reads the lower-case name back as the same call type |
| `NettyClient.RequestRoundTrip` | src/test/java/de/cosmocode/palava/ipc/legacy/LegacyNettyClient.java:120-126 | for a name and session without `/`, the replaying decoder yields the sent type, name, session and JSON bytes |
| `SocketClient.ContentLength` | src/main/java/de/cosmocode/palava/ipc/legacy/client/LegacySocketIpcClient.java:104-106 | the length field counts UTF-16 units as written, or UTF-8 bytes |
| `SocketClient.FormatRequest` | src/main/java/de/cosmocode/palava/ipc/legacy/client/LegacySocketIpcClient.java:101-110 | the request is `json://name//(len)?content` with an empty session id |
| `SocketClient.RequestTruncated` | src/main/java/de/cosmocode/palava/ipc/legacy/client/LegacySocketIpcClient.java:104-106 | as written, a non-ASCII body is cut to its first `length()` bytes by the server |
| `SocketClient.RequestRoundTrip` | src/main/java/de/cosmocode/palava/ipc/legacy/client/LegacySocketIpcClient.java:101-110 | counting bytes, the server reads back the name, an empty session and exactly the body |
| `SocketClient.SchemeReadsBack` | src/main/java/de/cosmocode/palava/ipc/legacy/client/LegacySocketIpcClient.java:104 | the `json` scheme is read as the JSON call type |
| `SocketClient.Read` | src/main/java/de/cosmocode/palava/ipc/legacy/client/LegacySocketIpcClient.java:209-219 | `read` reports end of stream at the end and also for a 0xFF data byte |
| `SocketClient.TaskStep` | src/main/java/de/cosmocode/palava/ipc/legacy/client/LegacySocketIpcClient.java:139-201 | one pass of the parser's loop per part, with its checks on mime, delimiters, digits and content |
| `SocketClient.Task` | src/main/java/de/cosmocode/palava/ipc/legacy/client/LegacySocketIpcClient.java:132-219 | a returned content consumed at least one and at most all stream bytes, none of which read as -1 |
| `SocketClient.ResponseRoundTrip` | src/main/java/de/cosmocode/palava/ipc/legacy/client/LegacySocketIpcClient.java:191-201 | the parser returns exactly the content and stops at its end: always when it compares first, and as written when the content has two or more bytes |
| `SocketClient.ReadBody` | src/main/java/de/cosmocode/palava/ipc/legacy/client/LegacySocketIpcClient.java:185-201 | from `)` on, the content returned for a length field `n` |
| `SocketClient.ContentEncoderToSocket` | src/main/java/de/cosmocode/palava/ipc/legacy/LegacyContentEncoder.java:62-83 | what the content encoder writes for a JSON text, the socket client returns whole |
| `SocketClient.ResponseOverRead` | src/main/java/de/cosmocode/palava/ipc/legacy/client/LegacySocketIpcClient.java:191-201 | as written, a 0- or 1-byte content takes `2 - length` following bytes into the content |
| `SocketClient.ShortResponseStalls` | src/main/java/de/cosmocode/palava/ipc/legacy/client/LegacySocketIpcClient.java:191-219 | as written, a short response with nothing after it ends in end of stream |
| `SocketClient.RejectsOtherMime` | src/main/java/de/cosmocode/palava/ipc/legacy/client/LegacySocketIpcClient.java:139-148 | a response of another mime is refused at its `:` |
| `SocketClient.ScanDigits` | src/main/java/de/cosmocode/palava/ipc/legacy/client/LegacySocketIpcClient.java:168-184 | digits collect until `)` and are parsed there |
| `Calls.Classify` | src/main/java/de/cosmocode/palava/ipc/legacy/LegacyHeaderDecoder.java:78-99 | each call type has its own variant, in both directions |
| `Calls.ClassifyBijective` | src/main/java/de/cosmocode/palava/ipc/legacy/LegacyDecoder.java:70-92 | classification and the variant's call type are inverse |
| `Calls.DecodeContent` | src/main/java/de/cosmocode/palava/ipc/legacy/LegacyHeaderDecoder.java:156-162 | exactly `contentLength` bytes are read; a negative length or too few remaining bytes throws |
| `Calls.Construct` | src/main/java/de/cosmocode/palava/ipc/legacy/LegacyHeaderDecoder.java:178-260 | in the newer decoder OPEN, DATA and JSON calls take exactly the first `contentLength` content bytes as their text on construction, and construction fails exactly when that read fails; its other calls start without text. The older decoder keeps no cached text in the model: its data call's text, which Java computes from the backing array in the constructor (LegacyDecoder.java:195-199), is the backing array, read through `Calls.JsonText` |
| `Calls.Decode` | src/main/java/de/cosmocode/palava/ipc/legacy/LegacyDecoder.java:67-96 | headers become the variant of their type with that header; other messages pass through unchanged |
| `Calls.DecodersClassifyAlike` | src/main/java/de/cosmocode/palava/ipc/legacy/LegacyHeaderDecoder.java:74-104 | both decoders build the same variant for the same header |
| `Calls.JsonText` | src/main/java/de/cosmocode/palava/ipc/legacy/LegacyDecoder.java:240-246 | the older decoder parses the whole backing array; the newer one parses exactly the first `contentLength` bytes of the content view |
| `Calls.GetText` | src/main/java/de/cosmocode/palava/ipc/legacy/LegacyHeaderDecoder.java:362-368 | the text call's text is the whole backing array in the older decoder and the first `contentLength` content bytes in the newer one; it fails exactly when those bytes are missing, and once read it is cached |
| `Calls.GetTextOnce` | src/main/java/de/cosmocode/palava/ipc/legacy/LegacyDecoder.java:323-329 | reading the text again returns the same text and changes nothing |
| `Calls.WholeArrayText` | src/main/java/de/cosmocode/palava/ipc/legacy/LegacyDecoder.java:198 | as written, the older decoder's text is the whole decoder buffer, not the request's content |
| `Calls.ContentLengthText` | src/main/java/de/cosmocode/palava/ipc/legacy/LegacyHeaderDecoder.java:156-162 | reading `contentLength` bytes, the text is exactly the request's content |
| `Calls.Arguments` | src/main/java/de/cosmocode/palava/ipc/legacy/LegacyHeaderDecoder.java:136-139 | text, binary and close calls refuse arguments; the others parse lazily once, and a parse failure is an illegal argument |
| `Calls.ArgumentsOnce` | src/main/java/de/cosmocode/palava/ipc/legacy/LegacyDecoder.java:276-287 | loaded arguments are served again without parsing |
| `Calls.FirstMissing` | src/main/java/de/cosmocode/palava/ipc/legacy/LegacyHeaderDecoder.java:297-306 | the first key absent from the arguments, with every earlier key present |
| `Calls.Require` | src/main/java/de/cosmocode/palava/ipc/legacy/LegacyDecoder.java:265-274 | `require` fails naming the first missing key, and succeeds exactly when all are present |
| `Calls.Put` | src/main/java/de/cosmocode/palava/ipc/legacy/LegacyHeaderDecoder.java:327-335 | `put` succeeds whenever the arguments load, sets the key on the parsed object or removes it for a null value, and leaves every other key as it was |
| `Calls.Lookup` | src/main/java/de/cosmocode/palava/ipc/legacy/LegacyHeaderDecoder.java:321-325 | the value of the first entry with the key |
| `Calls.StringedArguments` | src/main/java/de/cosmocode/palava/ipc/legacy/LegacyHeaderDecoder.java:223-235 | empty unless the text starts with `{`; otherwise every argument in order, stringified, with null kept null |
| `Calls.Stringify` | src/main/java/de/cosmocode/palava/ipc/legacy/LegacyDecoder.java:212-217 | every entry keeps its key and position, with its value rendered or kept null |
| `Calls.AttachTo` | src/main/java/de/cosmocode/palava/ipc/legacy/LegacyHeaderDecoder.java:119-121 | `attachTo(null)` fails; otherwise the request replaces the earlier one |
| `Calls.AttachLastWins` | src/main/java/de/cosmocode/palava/ipc/legacy/LegacyDecoder.java:117-119 | after two attachments the call reports the later request |
| `Calls.Context` | src/main/java/de/cosmocode/palava/ipc/legacy/LegacyHeaderDecoder.java:124-129 | the context map is created empty on first use and reused after |
| `Calls.ContextOnce` | src/main/java/de/cosmocode/palava/ipc/legacy/LegacyDecoder.java:122-127 | a second `context()` returns the same map and changes nothing |
| `Resolution.FirstAlias` | src/main/java/de/cosmocode/palava/ipc/legacy/LegacyCommandLoader.java:69-74 | the index of the first alias in iteration order whose name prefixes the aliased name, and none exactly when no alias matches |
| `Resolution.ToRealName` | src/main/java/de/cosmocode/palava/ipc/legacy/LegacyCommandCache.java:54-61 | the first matching alias's rewrite applies; without a match the name is unchanged |
| `Resolution.Target` | src/main/java/de/cosmocode/palava/ipc/legacy/LegacyCommandLoader.java:78-87 | following `@SupersededBy` ends at a class of the table that carries no annotation; a class without the annotation is its own target |
| `Resolution.TargetWithin` | src/main/java/de/cosmocode/palava/ipc/legacy/LegacyCommandLoader.java:78-87 | a class without `@SupersededBy` is its own target; the target is always a class without the annotation |
| `Resolution.TargetFuel` | src/main/java/de/cosmocode/palava/ipc/legacy/LegacyCommandLoader.java:82-86 | the end of a supersession chain does not depend on how far one is willing to follow it |
| `Resolution.TargetFollowsChain` | src/main/java/de/cosmocode/palava/ipc/legacy/LegacyCommandLoader.java:78-87 | a superseded class has its superseder's target, and a target is its own target |
| `Resolution.LoaderLoad` | src/main/java/de/cosmocode/palava/ipc/legacy/LegacyCommandLoader.java:54-67 | a null name and an unknown class fail; otherwise the instance is of the chain's final, unsuperseded class |
| `Resolution.CacheLoad` | src/main/java/de/cosmocode/palava/ipc/legacy/LegacyCommandCache.java:46-69 | a null name fails; a name no alias prefixes is looked up as it is, any other after the first prefixing alias's rewrite; a loaded class is always in the class table, and a failure names a class that is not |
| `Resolution.LoaderIsCacheThenTarget` | src/main/java/de/cosmocode/palava/ipc/legacy/LegacyCommandLoader.java:54-59 | the loader is the cache followed by supersession, and they agree exactly when the class is not superseded |
| `Execution.GetHttpSession` | src/main/java/de/cosmocode/palava/ipc/legacy/LegacyHandler.java:255-259 | the attached session, or an illegal state before attachment |
| `Execution.SetContent` | src/main/java/de/cosmocode/palava/ipc/legacy/JobCommand.java:93-95 | after `setContent` the response holds exactly the content given, null included |
| `Execution.ReplayLastWins` | src/main/java/de/cosmocode/palava/ipc/legacy/LegacyJobExecutor.java:58-71 | the last `setContent` wins, and `hasContent` holds exactly when that content is non-null |
| `Execution.JobExecute` | src/main/java/de/cosmocode/palava/ipc/legacy/LegacyJobExecutor.java:33-46 | a session failure escapes; a thrown exception or missing content becomes error content; otherwise the content set is returned |
| `Execution.NewJobCommand` | src/main/java/de/cosmocode/palava/ipc/legacy/JobCommand.java:52-55 | a null server or a null job is rejected, the server first |
| `Execution.JobCommandExecute` | src/main/java/de/cosmocode/palava/ipc/legacy/JobCommand.java:58-81 | a null request hands the job a null session; runtime exceptions are rethrown, checked ones wrapped; missing content fails "No content set" |
| `Execution.CommandExecute` | src/main/java/de/cosmocode/palava/ipc/legacy/LegacyCommandExecutor.java:34-40 | a `CommandException` becomes error content for that exception; any other outcome is returned unchanged |
| `Execution.Catch` | src/main/java/de/cosmocode/palava/ipc/legacy/LegacyExecutor.java:88-94 | runtime exceptions and `IpcCommandExecutionException` become error content, and anything else is left as it was |
| `Execution.LoadFailure` | src/main/java/de/cosmocode/palava/ipc/legacy/LegacyCommandCache.java:46-69 | a null name throws `NullPointerException` with message `AliasedName`; an unknown class throws an `IllegalArgumentException` whose message is the wrapped `ClassNotFoundException`'s `toString()`, `java.lang.ClassNotFoundException: ` followed by the class name; both are runtime exceptions |
| `Execution.Execute` | src/main/java/de/cosmocode/palava/ipc/legacy/LegacyExecutor.java:67-95 | a load failure is error content, and no runtime or IPC execution exception ever escapes |
| `Execution.DispatchOrder` | src/main/java/de/cosmocode/palava/ipc/legacy/LegacyExecutor.java:73-87 | an IPC command wins over a job, and a job wins over a command; an instance of none is an illegal argument whose message is `Unknown class ` followed by the instance's `toString()` |
| `Execution.JobPathsAgree` | src/main/java/de/cosmocode/palava/ipc/legacy/JobCommand.java:66-80 | a job run directly and one adapted as a command give the same result, except that a checked exception arrives wrapped on the command path |
| `Handler.Connected` | src/main/java/de/cosmocode/palava/ipc/legacy/LegacyHandler.java:101-105 | the channel gets a new, unattached request with a fresh identity; other channels are untouched |
| `Handler.Disconnected` | src/main/java/de/cosmocode/palava/ipc/legacy/LegacyHandler.java:217-225 | a disconnect leaves the request map and the event trace as they were |
| `Handler.Caught` | src/main/java/de/cosmocode/palava/ipc/legacy/LegacyHandler.java:210-215 | an exception closes the channel without removing its request or sending an event |
| `Handler.Open` | src/main/java/de/cosmocode/palava/ipc/legacy/LegacyHandler.java:131-153 | the four arguments are stored and the provider's session is attached, replacing any earlier one, followed by a connection-create event; nothing is written |
| `Handler.Invoke` | src/main/java/de/cosmocode/palava/ipc/legacy/LegacyHandler.java:119-185 | a detached call runs against its channel's request and its content is written; the finally events are recorded whatever the outcome; a non-detached call throws |
| `Handler.Close` | src/main/java/de/cosmocode/palava/ipc/legacy/LegacyHandler.java:187-208 | the channel closes, its request leaves the map, and a silent connection-destroy and the request's clearing follow |
| `Handler.Received` | src/main/java/de/cosmocode/palava/ipc/legacy/LegacyHandler.java:107-129 | a message changes only its own channel's request, never adds a request or changes an identity, and writes at most one response, to its own channel; non-call messages change nothing, and calls are routed by their header's type |
| `Handler.ReceivedPreservesValid` | src/main/java/de/cosmocode/palava/ipc/legacy/LegacyHandler.java:82 | request identities stay distinct across channels after every message |
| `Handler.Lifecycle` | src/main/java/de/cosmocode/palava/ipc/legacy/LegacyHandler.java:155-185 | connect, open, call and close leave the map as before, with the call run against the opened session and the trace in create, call, destroy order |
| `SessionAdapter.NewAdapter` | src/main/java/de/cosmocode/palava/ipc/legacy/LegacyHttpSessionAdapter.java:52-54 | a null session is rejected, and a new adapter caches nothing |
| `SessionAdapter.Touch` | src/main/java/de/cosmocode/palava/ipc/legacy/LegacyHttpSessionAdapter.java:91-94 | touching updates the access time and leaves the data and caches alone |
| `SessionAdapter.Set` | src/main/java/de/cosmocode/palava/ipc/legacy/LegacyHttpSessionAdapter.java:178-181 | the key then has the value, and every other key keeps its own |
| `SessionAdapter.Remove` | src/main/java/de/cosmocode/palava/ipc/legacy/LegacyHttpSessionAdapter.java:173-176 | the previous value is returned, and the key is gone with the others kept |
| `SessionAdapter.PutAll` | src/main/java/de/cosmocode/palava/ipc/legacy/LegacyHttpSessionAdapter.java:168-171 | keys not in the argument keep their values, and the final pair's key ends with the final pair's value |
| `SessionAdapter.PutAllLastWins` | src/main/java/de/cosmocode/palava/ipc/legacy/LegacyHttpSessionAdapter.java:168-171 | every key in the argument ends with the value of its last pair |
| `SessionAdapter.Clear` | src/main/java/de/cosmocode/palava/ipc/legacy/LegacyHttpSessionAdapter.java:148-151 | nothing is left in the session |
| `SessionAdapter.Lookup` | src/main/java/de/cosmocode/palava/ipc/legacy/LegacyHttpSessionAdapter.java:153-161 | `get` and `contains` find a value exactly when an entry has the key |
| `SessionAdapter.LocaleOf` | src/main/java/de/cosmocode/palava/ipc/legacy/LegacyHttpSessionAdapter.java:110-120 | a non-blank string language gives a locale, with the country only if that is a non-blank string too; anything else is no language |
| `SessionAdapter.GetLocale` | src/main/java/de/cosmocode/palava/ipc/legacy/LegacyHttpSessionAdapter.java:101-123 | the session is touched; a cached locale whose language equals the session's value is returned; otherwise format and collator are cleared even when the locale then fails |
| `SessionAdapter.GetLocaleNormal` | src/main/java/de/cosmocode/palava/ipc/legacy/LegacyHttpSessionAdapter.java:114-116 | every cached locale has a lower-case language |
| `SessionAdapter.UpperCaseLanguageMisses` | src/main/java/de/cosmocode/palava/ipc/legacy/LegacyHttpSessionAdapter.java:104-108 | a session language with an upper-case letter never hits the cache, so every call clears format and collator |
| `SessionAdapter.LowerCaseLanguageCached` | src/main/java/de/cosmocode/palava/ipc/legacy/LegacyHttpSessionAdapter.java:104-105 | with a lower-case language, asking again returns the cached locale and keeps the other caches |
| `SessionAdapter.GetNumberFormat` | src/main/java/de/cosmocode/palava/ipc/legacy/LegacyHttpSessionAdapter.java:125-132 | a cached format is returned without consulting the locale; otherwise the locale's format is computed and cached |
| `SessionAdapter.GetCollator` | src/main/java/de/cosmocode/palava/ipc/legacy/LegacyHttpSessionAdapter.java:134-141 | a cached collator is returned without consulting the locale; otherwise the locale's collator is computed and cached |
| `SessionAdapter.StaleFormat` | src/main/java/de/cosmocode/palava/ipc/legacy/LegacyHttpSessionAdapter.java:128-131 | a cached format survives a change of the session's language |
| `SessionAdapter.RenderAsMap` | src/main/java/de/cosmocode/palava/ipc/legacy/LegacyHttpSessionAdapter.java:183-198 | the id, the access time and then every entry in iteration order are rendered inside a `data` object, after what was rendered before |

## Left out

- **Netty plumbing.** Channels, futures, pipelines and writability warnings are not modelled. Channel writes are an output log. The close future completes immediately. Buffer cumulation is the growing byte sequence a decoder sees.
- **Concurrency.** The concurrent map, the socket client's thread pool and `Future`, and the thread-bound scopes are modelled sequentially. Registry notifications and scope transitions become an ordered event trace.
- **Registry listeners.** Listeners are not modelled: `notify` never throws, and `scope.enter` never fails.
- **Foreign code.** These become functions passed in or opaque values: org.json and Jackson parsing and rendering; the alias rewrite `Alias.apply`; the session provider; `Job.process`; commands; the IPC command executor; `NumberFormat` and `Collator` instances.
- **Text decoding.** UTF-8 decoding of request contents is not modelled; texts are kept as their bytes. `getInputStream` is not modelled.
- **Case mapping.** `Bytes.ToUpper` and the test client's lower-casing map ASCII letters only, as the root locale does. Java's `toUpperCase()` and `toLowerCase()` use the default locale: under a Turkic default locale a lower-case `i` in the type upper-cases to a dotted capital I, so `binary` becomes `BİNARY` and fails `valueOf` in Java while the model accepts it, and the test client writes `BINARY` as `bınary` with a dotless i. Non-ASCII letters are not mapped either.
- `Execution.LoadFailure`: assumes that the `ClassNotFoundException` thrown by `Reflection.forName` carries the class name as its message, as `Class.forName`'s does; `Reflection` is not part of this model.
- `Decimal.ParseInt`: accepts ASCII digits only. Java's `Integer.parseInt`, applied to the UTF-8-decoded text, also accepts other Unicode decimal digits (for example Arabic-Indic digits); the model rejects them.
- **`Locale` language codes.** The pre-Java-17 renaming of `he`, `yi` and `id` to `iw`, `ji` and `in` is not modelled.
- **Logging** is not modelled.
- **Session keys.** The actual key strings behind the session's language and country keys are defined outside this repository. They are kept as two distinct keys.
- **Session adapter forwarding.** The identifier, timeout, expiry and start-time accessors of the session adapter only forward to the session and are not modelled.
- **Injector.** `injector.getInstance` is total. Loading returns the class whose instance is created.
- **Class names.** The IPC command executor receives the loaded class's name; a runtime subclass name is not modelled.
- `Calls.WholeArrayText`: the backing array is taken to hold exactly the bytes the decoder has seen. Netty's dynamic cumulation buffer can have an `array()` longer than that, up to its capacity, and the older decoder would then also parse the unused tail.
- `Resolution.LoaderLoad`: requires every `@SupersededBy` chain to end (no cycle). The source recurses without a guard, and on a cycle overflows the stack.
- `Execution.JobExecute`: the server and the trailing `null` argument handed to the job are not part of the model; the job sees the call and the session.
- `Handler.Close`: a channel without a request makes the close listener fail after its event. Netty swallows that failure, so it is not reported.
- `SocketClient.Task`: reads past what the parser needs are not modelled beyond the stream handed in; the response stream is a finite byte sequence.

## Findings

| source | as written | input that shows it | evidently intended | confidence | as-written member | corrected member |
|---|---|---|---|---|---|---|
| src/main/java/de/cosmocode/palava/ipc/legacy/LegacyFrameDecoder.java:124-127 | in `SECOND_SLASH` the loop skips a byte and never changes `part`, so `NAME` through `CONTENT` are unreachable and the installed decoder never returns a request | any request, e.g. `json://x//(2)?{}` | a decoder that advances through all parts, as the replaying decoder does | not executed; high from reading the code | `FrameDecoder.DropsRequest` | `RequestDecoder.RoundTrip` |
| src/main/java/de/cosmocode/palava/ipc/legacy/LegacyFrameDecoder.java:105-117 | when a chunk ends right after `:`, the reader index is left on the colon and the next call checks the colon against `/` and throws | the chunks `json:` and `//x//(2)?{}` | chunking does not matter | not executed; high | `FrameDecoder.ColonAtChunkEnd` | `RequestDecoder.FeedSplit` |
| src/main/java/de/cosmocode/palava/ipc/legacy/client/LegacySocketIpcClient.java:104-106 | the length field is `content.length()`, a count of UTF-16 units, while the server reads that many bytes | a body `{"k":"é"}`: 9 units, 10 bytes | the UTF-8 byte length of the body | not executed; high | `SocketClient.RequestTruncated` | `SocketClient.RequestRoundTrip` |
| src/main/java/de/cosmocode/palava/ipc/legacy/client/LegacySocketIpcClient.java:191-201 | one content byte is read in `QUESTION_MARK` and another before the first length check, so 0- and 1-byte contents over-read, or block at the end of the stream | the response `application/json://(0)?` followed by nothing | stop after exactly `length` content bytes | not executed; high | `SocketClient.ResponseOverRead` | `SocketClient.ResponseRoundTrip` |
| src/main/java/de/cosmocode/palava/ipc/legacy/client/LegacyClientHeaderDecoder.java:61-64 | the copy is sized by `limit()`, which for a view at a non-zero offset exceeds its `remaining()` bytes, so `get` underflows | a JSON response decoded from a buffer where its content does not start at offset 0 (the case whenever the response's header and content arrive in the same buffer) | copy `remaining()` bytes | not executed; medium, because it depends on the transport's buffer handing out array-offset views | `ClientDecoder.HeaderDecoderUnderflows` | `ClientDecoder.HeaderDecoderReadsContent` |
| src/main/java/de/cosmocode/palava/ipc/legacy/LegacyDecoder.java:198 | the data and JSON text is decoded from the content buffer's whole backing array, which includes the header and any further requests | a request `json://x//(2)?{}` | decode `contentLength` bytes, as the newer decoder does | not executed; high | `Calls.WholeArrayText` | `Calls.ContentLengthText` |
