# mnapp in Dafny

A model of the HTTP parts of mnapp (`src/mnhttp.c`, `src/mnhttpc.c`) and of the help-text loop of
`src/mncommand.c`, with proofs about it. `dafny verify dfyconfig.toml` checks the whole project.

## What is modelled

**The incremental message parser.** `MessageSpec` says what a whole byte stream means: which line, header and body
callbacks it causes, and where the message ends. It has no buffer, cursor or parser state. `MessageParser` is the C
code: a context object with the fields of `mnhttp_ctx_t`, a stream whose buffer grows by deliveries, is overwritten
with NULs and is shifted by recycling, and one method per C function. `ParserView` connects the two: a `View` turns
buffer positions into stream offsets, `Sound` is the invariant between deliveries, `Resume` is the rest of the reading.
The main result is the contract of `MessageParser.ParseMessage`: for every stream, every way to cut it into
deliveries, and every amount of recycling, the parser reports what the reference reading says and stops where it
ends. `SplitLaws`, `RoundTrip`, `Messages` and `Endpoints` draw the consequences: when splitting is invisible,
truncation, round trips with the writers, the chunked coding, pipelining. `QueryRoundTrip` follows query terms from the
client's URI object through writer, parser and splitter to the server.

**The text codecs.** `PercentCodec` (in-place decoder, buffer-filling encoder), `KeyValue` (the key/value splitter),
`Uri` (the cut of a URI, specified by its text and delimiters only), `RequestTarget` (defaults, query terms, request
line), `UriFields` (from the text of a URI to the fields of `mnhttp_uri_t`).

**The client.** `ClientProtocol` is one connection as a state machine: callers, semaphore, FIFO, send worker, receive
worker and peer, interleaved at the points where an mnthr thread can block. `ConnectionPool` is the table of
connections with its memoised hashes.

**The help text.** `HelpText` is the wrapping loop with its 55-byte buffer.

## What the proofs found

- A delivery that ends between the CR and the LF of the blank line moves the start of the body one byte too far
  (`src/mnhttp.c:1340`). `SplitLaws.SplitIndependenceExact` gives the exact condition under which a cut stream reads as
  the whole one; `Messages.CutBlankLineSpoils` shows that a message of declared length never survives such a cut, and
  `Endpoints.LastByteAlone` names one. A cut inside the CR LF behind chunk data is harmless, as long as
  `bytestream_recycle` never drops more than is there.
- A chunked message counts as complete one byte before its last: the LF of the final CR LF is skipped unread
  (`Messages.ChunksCut`). The two bytes behind chunk data may be any two bytes (`Messages.ChunkRead`).
- A message that declares no length has `bodysz == -1`, and the parser ends on the LF of its blank line
  (`Messages.UndeclaredEndsEarly`, `Messages.FramingExact`).
- `parse_method` compares over the length of the token, so every proper prefix of a method name, the empty one
  included, passes for a known method. `RoundTrip.MethodExact`: a token gets the code of the name it spells if and only
  if it is no such prefix. PATCH is an extension, although the header file gives it a code of its own
  (`RoundTrip.MethodSurprises`); the model follows the code.
- A URI without scheme and port keeps no port (`RequestTarget.BareHostHasNoPort`), although
  `test/testhttpuri.c:36-45` expects "80". The model follows the code.
- Added query terms are glued to the last term of an existing query. Behind a query with a fragment they become part of
  the fragment; behind a fragment alone they arrive, but the fragment has become part of the path.
  `RequestTarget.AppendExact`: path, fragment and terms all come back if and only if there was no fragment, and no
  query or one that was empty or ended in '&'. `RequestTarget.AppendTermsExact` says the same of the terms alone.
- The encoder escapes the decimal digits, which section 2.3 of RFC 3986 counts as unreserved
  (`PercentCodec.DigitsAreEscaped`). A text is left alone if and only if it holds letters and "-._~" only, so a text of
  unreserved characters if and only if it holds no digit (`PercentCodec.EncodeKeeps`, `PercentCodec.UnreservedKept`).
- Two blanks in front of a long word drive the copy counter of the help text below zero
  (`HelpText.TwoBlanksFail`, exact condition in `HelpText.PrintableExact`).

## What is taken from outside

- `bytestream_consume_data` appends at least one byte or reports end of file; `bytestream_recycle` drops some number of
  leading bytes, at most `from` and at most what is there; `bytestream_nprintf` writes at most its limit less one.
- `strtol` is modelled in full (white space, sign, "0x", saturation to long, ERANGE); whether errno was set before and
  whether strtol sets EINVAL without digits are parameters (`MessageSpec.Config`). A `long` assigned to an `int` keeps
  its low 32 bits.
- Callbacks only look; they return 0.
- A hash table is the list of its `hash_set_item` calls (`KeyValue`) or a list with one value per key that is
  traversed in any order (`RequestTarget`). `bytes_cmp` of a null port with "443" is unequal. `bytes_urldecode` and
  `bytes_str_urlencode2` behave like the codec of `src/mnhttp.c`.
- `bytestream_produce_data` returns 0 only when everything in the stream is written. A signal reaches only a
  subscribed thread. The peer answers a request only after it has received its first byte.
- `bytes_hash` and `fasthash` are parameters.

## Model

| member | source | states |
|---|---|---|
| Bytes.FindCrlf | src/mnhttp.c:797-810 | the first complete CR LF pair at or after a position, or none |
| Bytes.FindSp | src/mnhttp.c:813-824 | the first blank |
| Bytes.FindNoSp | src/mnhttp.c:827-838 | the first non-blank |
| Bytes.FirstCrlfStable | src/mnhttp.c:1073-1079 | bytes that arrive later never move a pair that is complete, so a repeated scan finds the same line end |
| Bytes.CaseExact | src/mnhttp.c:1036-1060 | strcasecmp takes two bytes for the same exactly if they are equal or the two forms of one ASCII letter |
| Numbers.StrtolDecimal | src/mnhttp.c:1139-1161 | strtol in base 10 inverts the digits that "%d" writes, sign included, and stops at the first byte that is no digit |
| Numbers.StrtolNumeral | src/mnhttp.c:918-919 | strtol reads every digit string that fits a long, in base 16 and 10, both cases and leading zeros included, as its value, and stops at the first byte that is no digit |
| Numbers.StrtolReads | src/mnhttp.c:1139-1161 | strtol on any number: white space, sign, "0x" in base 16, digits; the value, saturated to long, and the end of the digits |
| Numbers.StrtolExact | src/mnhttp.c:1139-1161 | strtol finds nothing exactly where no such number stands |
| Numbers.HornerWeighs | src/mnhttp.c:918-919 | a string of digits is positional: each digit counts by its place |
| Numbers.DigitExact | src/mnhttp.c:86-104 | the sixteen digits have the values 0 to 15 in both cases, and no other byte is one |
| ByteStreams.ByteStream.ConsumeData | src/mnhttp.c:1267-1283 | a delivery is appended and nothing else changes; the stream as a whole stays the same |
| ByteStreams.ByteStream.Recycle | src/mnhttp.c:887-890 | whatever is dropped, the offset of the cursor and the bytes behind `from` stay what they were |
| ByteStreams.ScanShift | src/mnhttp.c:908-909 | scanning the shifted buffer is scanning the stream at the shifted offset |
| MessageParser.Ctx.constructor | src/mnhttp.c:557-580 | a fresh context: state START, no declared length, nothing reported |
| MessageParser.ParseRequestLine | src/mnhttp.c:1067-1169 | the imperative scan computes the reference reading of the request line, with every error |
| MessageParser.ParseStatusLine | src/mnhttp.c:1172-1250 | likewise for the status line, whose reference is characterised by StatusLineExact and StatusShapeReads |
| MessageParser.ProcessHeader | src/mnhttp.c:841-870 | Content-Length and Transfer-Encoding, read as C strings from the edited buffer, change the framing as the reference says |
| MessageParser.EditedStrings | src/mnhttp.c:1361-1365 | the two NULs written into the buffer end name and value for every C string function |
| MessageParser.SplitHeader | src/mnhttp.c:1351-1364 | first colon, then first non-blank behind it; no colon and no value are told apart; its reference is characterised by HeaderLineReads and HeaderLineExact |
| MessageParser.CutHeader | src/mnhttp.c:1361-1371 | name and value are reported as delivered, and the bytes behind the header stay untouched |
| MessageParser.RecycleStreamBuffer | src/mnhttp.c:873-891 | the current chunk keeps its offsets in the stream and everything behind it its bytes |
| MessageParser.ReportBody | src/mnhttp.c:967-971 | the body callback sees exactly the stream's bytes at the offsets of the current chunk |
| MessageParser.TakeBody | src/mnhttp.c:992-1002 | the body range grows with the cursor and never beyond the declared length |
| MessageParser.StepFixedBody | src/mnhttp.c:991-1027 | a body of declared length: waits, or reports it once and ends exactly behind it |
| MessageParser.StepChunkSize | src/mnhttp.c:905-936 | a size line: waits, fails, or starts the chunk it announces |
| MessageParser.StepChunkData | src/mnhttp.c:938-990 | chunk data: accumulates, or reports the chunk and goes on two bytes behind it |
| MessageParser.ProcessBody | src/mnhttp.c:894-1030 | one call advances the reading of the body and makes progress |
| MessageParser.EnterBody | src/mnhttp.c:1338-1347 | at the blank line the body starts where the reference says, cut or not |
| MessageParser.StepLine | src/mnhttp.c:1294-1310 | the first line: waits for its end, fails, or is reported |
| MessageParser.StepHeader | src/mnhttp.c:1317-1395 | a header line or the blank line, including the jump into the body |
| MessageParser.Turn | src/mnhttp.c:1289-1410 | every turn keeps the invariant and the reading, never moves the cursor back, and decreases (unread bytes, state rank) |
| MessageParser.Fill | src/mnhttp.c:1267-1283 | a delivery keeps invariant and reading; one is asked for only when the message ends behind what is there |
| MessageParser.ParseMessage | src/mnhttp.c:1253-1415 | for every stream, every cut and every recycling: events, result, end and bodysz are those of the reference reading; the unread bytes are untouched; EMPTY exactly at START with nothing delivered; no read once the message is there; the loop ends |
| ParserView.Arrival | src/mnhttp.c:1267-1283 | the step invariant survives any delivery |
| ParserView.AtEndOfFile | src/mnhttp.c:1276-1280 | at end of file inside a message the reading is truncated and reports nothing more |
| ParserView.BlankLineSkew | src/mnhttp.c:1338-1342 | the cursor plus 2 is the body start of the reference, one too far exactly after a cut inside the blank line |
| ParserView.AsksInNeed | src/mnhttp.c:1265-1283 | where the parser asks for input, the message does end behind what has arrived |
| SplitLaws.SplitIndependence | src/mnhttp.c:1253-1415 | with the blank line whole, any cut stream reads as the stream in one piece |
| SplitLaws.SplitIndependenceExact | src/mnhttp.c:1338-1347 | the exact condition, for every complete message of declared length or chunked |
| SplitLaws.OnlineMessage | src/mnhttp.c:1253-1415 | a prefix of a stream never reads differently, only less far, and in full as soon as the message is there |
| SplitLaws.TruncationExact | src/mnhttp.c:1267-1283 | for any prefix of the stream and any cuts, a message of declared length reads in full if and only if its last byte is there and no delivery ended inside its blank line; while bytes are missing the reading is truncated, with the first of the events and without a body callback |
| RoundTrip.FieldReadsBack | src/mnhttp.c:1351-1365 | a written header comes back as name and value if and only if the name has no colon and the value starts with a non-blank |
| RoundTrip.HeaderLineReads | src/mnhttp.c:1351-1364 | every line of a name, the first colon, any blanks or none, and a value that starts with a non-blank is read as name and value; without a value the code meets a null pointer |
| RoundTrip.HeaderLineExact | src/mnhttp.c:1351-1364 | a line is refused if and only if it has no colon, and meets the null pointer if and only if nothing but blanks follow the first one |
| RoundTrip.FieldsRead | src/mnhttp.c:1312-1382 | a block of clean headers comes back whole and in order, with the framing it declares |
| RoundTrip.RequestLineExact | src/mnhttp.c:1083-1129 | the request-line grammar: a syntax error if and only if the line is not token, blanks, token, blanks, rest; not HTTP if and only if that rest does not start with "HTTP/" in any case |
| RoundTrip.RequestFormReads | src/mnhttp.c:1083-1168 | every line of method, blanks, URI, blanks, "HTTP/", numeral, dot, numeral and anything is read by its parts; a zero version number fails exactly with a stale errno |
| RoundTrip.VersionReads | src/mnhttp.c:1139-1160 | a version of any two numbers strtol can read, with sign, white space and saturation, gives these numbers as ints |
| RoundTrip.VersionWithoutDot | src/mnhttp.c:1139-1149 | a number that no dot follows is refused for the dot |
| RoundTrip.VersionWithoutNumber | src/mnhttp.c:1139-1149 | a version without a number is refused, with an error that depends on errno |
| RoundTrip.RequestLineReads | src/mnhttp.c:1083-1168 | every blank-free method and URI comes back from the request line |
| RoundTrip.StatusLineExact | src/mnhttp.c:1187-1200 | a status line is a syntax error if and only if it is blank, and not HTTP if and only if something else than "HTTP/", in any case, follows its leading blanks |
| RoundTrip.StatusShapeReads | src/mnhttp.c:1187-1249 | every line of blanks, "HTTP/", numeral, dot, numeral, blanks, code and anything is read by its parts; a part that is 0 fails exactly with a stale errno |
| RoundTrip.StatusMissing | src/mnhttp.c:1227-1232 | blanks only behind the version: the status is missing |
| RoundTrip.StatusLineReads | src/mnhttp.c:1187-1249 | every int status code comes back from the status line that was written for it; 0 fails exactly with a stale errno |
| RoundTrip.MethodReads | src/mnhttp.c:1033-1064 | the eight known methods keep their identity |
| RoundTrip.MethodExact | src/mnhttp.c:1033-1064 | for every token: it gets the code of the name it spells, in any case, or the extension code if it spells none, if and only if it is no proper prefix of a name; a NUL ends the token |
| RoundTrip.MethodSurprises | src/mnhttp.c:1033-1064 | two inputs: the empty token is GET, PATCH is an extension |
| RoundTrip.ContentLengthDeclares | src/mnhttp.c:851-855 | Content-Length with a decimal number, in any case, declares that length |
| RoundTrip.ContentLengthReads | src/mnhttp.c:851-855 | any value that starts with a number declares that number, saturated and narrowed to int |
| RoundTrip.ContentLengthWithoutNumber | src/mnhttp.c:851-855 | a value without a number declares 0 |
| Messages.LengthDeclares | src/mnhttp.c:851-855 | one Content-Length in decimal among any other fields that process_header passes over declares the body of that length |
| Messages.HexSizeIsTaken | src/mnhttp.c:918-926 | every size line 1*HEX (section 3.6.1 of RFC 2616) that says how long the data are is accepted as that size |
| Messages.ChunkSizeExact | src/mnhttp.c:918-926 | a size line is taken if and only if all of it is one hexadecimal number whose int value is not negative, and has that value |
| Messages.BadSizeFails | src/mnhttp.c:918-926 | a body whose size line is no such number fails without a callback |
| Messages.ChunksRead | src/mnhttp.c:904-990 | chunked decoding inverts the grammar of section 3.6.1 of RFC 2616 without extensions and trailers: one callback per chunk with its bytes, the last empty, bodysz the sum as an int, end behind the final CR LF |
| Messages.ChunkRead | src/mnhttp.c:938-990 | one chunk is reported with its bytes, and the two bytes behind them are skipped whatever they are |
| Messages.ChunksCut | src/mnhttp.c:938-990 | a chunked body that ends early: the chunks reported are exactly those whose data arrived with one byte more; complete one byte before its last |
| Messages.ChunkedDeclares | src/mnhttp.c:857-866 | "Transfer-Encoding: chunked" behind any fields, and with none behind it that changes the framing, declares every chunked body of the grammar |
| Messages.HeadReads | src/mnhttp.c:1294-1382 | a message head anywhere in a stream is reported in full and leads to the body behind its blank line |
| Messages.MessageReads | src/mnhttp.c:1253-1415 | exact framing: a well-formed message anywhere in a stream gives exactly its events and its end, whatever follows |
| Messages.FramingExact | src/mnhttp.c:992-1026 | the parser ends n bytes behind the blank line if and only if the head declares n |
| Messages.UndeclaredEndsEarly | src/mnhttp.c:568 | whatever clean header fields there are, if none of them declares a framing the body has length -1 and the message ends one byte early |
| Messages.BadLineFails | src/mnhttp.c:1294-1303 | a bad first line ends the reading with its error and no callback |
| Messages.BadHeaderFails | src/mnhttp.c:1351-1358 | a header line without a colon ends it behind the callbacks for the line and the headers in front |
| Messages.CutBlankLineSpoils | src/mnhttp.c:1340 | a cut inside the blank line always spoils a message of declared length |
| Endpoints.LastByteAlone | src/mnhttp.c:1340 | one concrete request that is read when delivered in one piece, and reads as truncated when its last byte is a delivery by itself |
| Messages.PipelineReads | src/mnhttp.c:1024-1025 | n messages in a row are read as n messages, each as if alone |
| Endpoints.ParseDeliveries | src/mnhttp.c:1419-1439 | a fresh connection: result and events are the reference reading of everything delivered; EMPTY exactly without a delivery |
| Endpoints.ParseTwoWays | src/mnhttp.c:1419-1439 | two cuts of the same bytes that spare the blank line give equal results and equal events |
| Endpoints.ParseTruncated | src/mnhttp.c:1267-1283 | a connection that ends inside or behind a message of declared length: success with its events if and only if all of it was delivered and no delivery ended inside its blank line; otherwise EMPTY without any delivery and CONSUME_DATA_ERROR with one, and no body callback |
| Endpoints.ParseCutChunks | src/mnhttp.c:1267-1283 | a connection that ends inside or behind a chunked body: the chunks that arrived with one byte more are reported, and success if and only if these are all |
| Endpoints.ParsePipeline | src/mnhttpc.c:549-594 | a loop with a fresh context per message over one stream returns the events of each message |
| Endpoints.ResponseIsWellFormed | src/mnhttp.c:661-673 | what http_start_response writes is a well-formed status line, code 0 with a stale errno excepted |
| Endpoints.RequestRoundTrip | src/mnhttp.c:646-702 | the parser reports exactly the method, URI, headers and body that the writers were given, in order, however the bytes travel |
| Endpoints.ResponseRoundTrip | src/mnhttp.c:661-702 | the same for status code, headers and body of a response; code 0 with a stale errno is refused |
| QueryRoundTrip.QueryRoundTrip | src/mnhttp.c:474-554 | the query terms of a URI and those added to it reach the server in order, with the path, through request writer, parser, URI cut and splitter, however the bytes travel |
| Writers.OutStream.StartRequest | src/mnhttp.c:646-658 | the whole request line is written; the limit never cuts it |
| Writers.OutStream.StartResponse | src/mnhttp.c:661-673 | likewise for the status line, for every int |
| Writers.OutStream.AddHeaderField | src/mnhttp.c:676-702 | likewise for a header field |
| Writers.OutStream.AddRest | src/mnhttpc.c:907-922 | the header fields in order, the blank line, the body |
| PercentCodec.UrlEncode | src/mnhttp.c:39-77 | the buffer holds the encoding as a C string, and every write stays inside 3 * sz + 1 bytes |
| PercentCodec.UrlDecode | src/mnhttp.c:80-113 | in place, never reading past the terminator: the decoding stands before the returned index, or null exactly for text that does not decode |
| PercentCodec.DecodeEncode | src/mnhttp.c:26-113 | decoding undoes encoding for every byte string |
| PercentCodec.DecodeExact | src/mnhttp.c:84-110 | the decoder accepts exactly the texts spelled by plain bytes and whole escapes, and reads each as spelled |
| PercentCodec.EncodeHarmless | src/mnhttp.c:26-36 | encoded text holds no delimiter, blank or NUL |
| PercentCodec.EncodeExact | src/mnhttp.c:26-77 | by characters: letters and "-._~" stay, every other byte becomes '%' and two upper-case digits |
| PercentCodec.EscapeDecodes | src/mnhttp.c:84-104 | an escape with digits in either case stands for their byte |
| PercentCodec.DecodeKeeps | src/mnhttp.c:105-107 | a text is its own decoding if and only if it holds no '%' |
| PercentCodec.EncodeKeeps | src/mnhttp.c:26-36 | a text is left as it is if and only if every byte is marked in the table |
| PercentCodec.UnreservedKept | src/mnhttp.c:29 | a text of the unreserved characters of section 2.3 of RFC 3986 is left as it is if and only if it holds no digit |
| PercentCodec.DigitsAreEscaped | src/mnhttp.c:29 | every decimal digit is escaped |
| KeyValue.FindPair | src/mnhttp.c:190-223 | the index loop of one piece computes what PieceReads describes |
| KeyValue.PieceReads | src/mnhttp.c:190-223 | a piece with a key gives the key and everything behind the first field delimiter, or an empty value without one; a piece without a key gives nothing |
| KeyValue.PairsRead | src/mnhttp.c:226-265 | any pairs written with the two delimiters are stored exactly, in order, those without a key dropped |
| KeyValue.WriteThenSplit | src/mnhttp.c:226-265 | the same of the index loop |
| KeyValue.ParseKvp | src/mnhttp.c:226-265 | the index loop stores split on rdelim, cut at the first fdelim, empty keys dropped, for all delimiters |
| KeyValue.JoinPieces | src/mnhttp.c:233-242 | the pieces join to the text and hold no delimiter |
| KeyValue.PiecesJoin | src/mnhttp.c:233-242 | no other cut has that property |
| Uri.SplitUri | src/mnhttp.c:271-447 | for every string, the parts concatenate to it and are free of their delimiters, and no other parts do and are |
| Uri.SplitUnique | src/mnhttp.c:271-447 | a string has at most one split |
| Uri.ParseAuthority | src/mnhttp.c:357-400 | user, password, host and port of the text before the first slash, nothing lost |
| Uri.ParseTail | src/mnhttp.c:316-354 | path, query and fragment of the rest, nothing lost |
| Uri.PrintThenParse | src/mnhttp.c:271-447 | printing parts and parsing the text gives the parts back |
| RequestTarget.HttpUri.Parse | src/mnhttp.c:271-471 | the fields hold the one split of the text, with the defaults that UriFields.ParseForm spells out |
| UriFields.ParseForm | src/mnhttp.c:271-471 | every URI written from its parts leaves each part in its field; a written port is kept, https and wss default to "443", http and ws to "80"; without a scheme port 443 means https and any other http; `relative` is the text from the first slash, except after "serial://" |
| RequestTarget.PortKnown | src/mnhttp.c:449-470 | a port is known if and only if one was written or the scheme was http, https, ws or wss |
| RequestTarget.BareHostHasNoPort | src/mnhttp.c:449-470 | every bare host name becomes http without a port |
| RequestTarget.HttpUri.AddQterm | src/mnhttp.c:177-187 | qtermsz grows by both lengths with their terminators and covers all terms after any sequence of adds |
| RequestTarget.PutExact | src/mnhttp.c:177-187 | after an add the table holds the new term, no other with its key, and all the rest |
| RequestTarget.HttpUri.WriteTerms | src/mnhttp.c:500-543 | the encoded terms are written with '&' between them, and every encoding fits its qtermsz * 3 + 1 bytes |
| RequestTarget.HttpUri.StartRequest | src/mnhttp.c:474-554 | method, target and version are written whole, in any order of the table |
| RequestTarget.QueryReads | src/mnhttp.c:500-543 | the splitter gives back exactly the written terms that have a key |
| RequestTarget.AppendExact | src/mnhttp.c:487-520 | the written target has the old path, the old fragment and the old terms followed by the new ones if and only if there was no fragment, and no query or one that was empty or ended in '&' |
| RequestTarget.AppendTermsExact | src/mnhttp.c:487-520 | the terms alone come back, old ones first, if and only if there was no query or that condition holds |
| ClientProtocol.StepKeepsInv | src/mnhttpc.c:428-604 | every step keeps: one holder of the semaphore, one request in flight, responses in order, bytes conserved, each call submitted once |
| ClientProtocol.RunIsSafe | src/mnhttpc.c:863-936 | over every interleaving: at most one request queued or being answered, the k-th response in the k-th request, the wire a prefix of the submitted requests |
| ClientProtocol.AnyPermitsSafe | src/mnhttpc.c:541-594 | without the semaphore: with any number of permits and of requests in flight, the k-th response goes to the k-th request and the wire is a prefix of the submitted requests |
| ClientProtocol.NeverStuck | src/mnhttpc.c:436-458 | no wake-up is lost: while a call has not returned, a step is possible |
| ClientProtocol.StepWorks | src/mnhttpc.c:428-604 | every step uses up some of a finite amount of work |
| ClientProtocol.RunsComplete | src/mnhttpc.c:863-936 | a run that cannot go on has returned from every call, with every request on the wire and each holding its own response |
| ConnectionPool.Connection.Hash | src/mnhttpc.c:229-268 | the memoised hash is the hash of the address fields, which HashTells characterises |
| ConnectionPool.HashTells | src/mnhttpc.c:229-268 | where bytes_hash and fasthash do not collide on the fields, equal hashes mean equal proxy host, proxy port, host and port |
| ConnectionPool.Client.Lookup | src/mnhttpc.c:271-280 | finds an entry of equal hash if there is one, and keeps every memory right |
| ConnectionPool.Client.Open | src/mnhttpc.c:824-843 | the connection has the address asked for if and only if nothing in the table collides with it; entries keep distinct hashes |
| ConnectionPool.OpenAll | src/mnhttpc.c:824-843 | under a collision-free hash requests share a connection exactly when they share the address |
| ConnectionPool.OpenApart | src/mnhttpc.c:824-843 | the same from the two hash functions alone |
| ConnectionPool.NewRequest | src/mnhttpc.c:787-851 | a request is refused exactly without host, port or relative part |
| HelpText.FindNcopy | src/mncommand.c:22-44 | a rest of less than 53 characters is taken whole; otherwise the break is at the last blank within 53 characters, and at 53 only if there is none |
| HelpText.FillBuffer | src/mncommand.c:96-103 | piece, dash and terminator fit the 55-byte buffer and print as they are |
| HelpText.FormatDescription | src/mncommand.c:82-112 | the loop ends and prints the lines of the description, or underflows where they do not exist |
| HelpText.LinesConserve | src/mncommand.c:86-112 | skipped blanks and copied pieces concatenate to the description |
| HelpText.LinesAreGood | src/mncommand.c:88-103 | each piece has at most 53 characters and fits the buffer with its dash, and only blanks are skipped |
| HelpText.DashExact | src/mncommand.c:97-103 | a line ends in a dash if and only if there is a next line, a letter or digit ends the one and, with nothing skipped, another starts the next |
| HelpText.BreaksExact | src/mncommand.c:86-112 | every printed line ends where it should: a word is broken only if no blank fits |
| HelpText.PrintedExact | src/mncommand.c:96-112 | the printed text, cut at its line feeds, is one line per piece: 24 blanks but for the first, the piece, its dash |
| HelpText.BadIsUnderflow | src/mncommand.c:90-95 | the counter underflows exactly when a line starts with two or more blanks and has no other blank within the width |
| HelpText.PrintableExact | src/mncommand.c:86-112 | a description can be printed if and only if none of its lines starts so |
| HelpText.PlainTextIsPrintable | src/mncommand.c:86-112 | every description without adjacent blanks can be printed |
| HelpText.TwoBlanksFail | src/mncommand.c:90-95 | two blanks in front of a word of 51 characters or more fail |

## Left out

- Readings that end as `Undefined`: a header value without a non-blank byte (null pointer, `src/mnhttp.c:1363`); a version or status without a non-space byte on its line, and an empty chunk-size line. In the last three strtol skips the line end and reads on, so the result depends on the bytes that follow in the buffer ("\r\nX" is taken as a last chunk); what the C code makes of them is not modelled.
- Endpoints.ParsePipeline: the well-formed messages it is given are a ghost argument; malformed ones are covered by ParseMessage, one at a time.
- ByteStreams.ByteStream.Recycle: the rounding to blocks of 512 bytes is not modelled; any amount up to the limit is allowed.
- ClientProtocol.RunIsSafe: I/O errors, interrupts, reconnects and `mnhttpc_gc` end a modelled run; the response is one step between "reading" and "read", its bytes are the parser's matter. The workers are steps of a state machine rather than loops, because the claims are about their interleaving.
- ConnectionPool.Client.Lookup: the buckets of the hash table are one list; the scheme is not part of the key, as in the source.
- Callbacks that fail or change the context, and the two error codes 12 and 13 for a bad body, which depend on how the input was delivered; both are one error here.
- Header continuation lines, chunk extensions and trailers, which the source does not support.
- HelpText.PrintedExact: for descriptions without line feeds; one inside a description is printed as it is and cannot be told from the end of a line.
- `mnhttpc_response_header_cb`, the date and printf header writers: simple code around library calls.
- TLS, sockets, daemonizing, the TCP server, getopt dispatch and help-spec formatting: foreign calls with little logic.
- Reference counting, allocation failure, tracing; overflow of `size_t` sums.
