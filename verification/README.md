# Obelisk: a verified model of its protocols and data rules

Obelisk is a C++ web framework (HTTP server, SQL builder, connection pool) with an
administration application on top. This project models its hardest parts in Dafny and
proves what their code promises, for every input, every run and every way the network
may cut the bytes. Where the code does not keep a promise, the exact condition under
which it does is proved instead.

`dafny verify dfyconfig.toml` checks everything.

## Modules

| file | subject |
|---|---|
| `Search`, `Results`, `Numbers` | substring search, exceptions, `stoul`/`stoull` and the printing they undo |
| `Network` | the peer, the stream buffer, and the read-until loop as a function of the segmentation |
| `HttpHeader` | `parse_http_header2` |
| `HttpFraming` | `receive_header_`, `receive_body_`, `receive_chunked_body_`, both `receive_until_` |
| `MessageText` | what senders write: chunked bodies, whole messages, keep-alive streams |
| `OutgoingData` | `http_data_istream_wrapper`, `multi_stream_iodata`, `write_data_` |
| `RoundTrip` | `http_response::serialize`, and a response from one end of a connection to the other |
| `Multipart` | `parse_multipart_body` with its sliding window over file parts |
| `UrlEncoded` | `parse_urlencoded_param` |
| `Router` | route patterns, the generated matcher, `route_param::extract` |
| `WhereCompiler` | the WHERE clause: building, printing, and SQL's reading of it |
| `Migrations` | `run_migration` over any number of calls and failures |
| `OrgHierarchy`, `Permissions`, `AssignPermission` | the organisation closure table, `utils::can`, `backend_assign_permission` |
| `AsyncMutex`, `ConnectionPool` | the coroutine mutex and the connection pool as systems of steps |
| `SecurePath` | `local_fs::secure_path_` |
| `Counterexamples` | one concrete input for each promise that does not hold in general |

## How the model reads the code

- **Bytes** are `char`; nothing depends on their width. 32-bit and 64-bit counters are
  written out where the code uses them.
- **The network** is a string of unread bytes and a `plan`: what each operation delivers,
  at least one byte and at most what was asked for, or a fault. Every theorem about
  receiving is for all plans. Past the last byte every read reports the end of the stream.
  Because `receive_header_` reads before it looks at the buffer, a live connection with a
  complete message already buffered would wait; results are therefore stated per call,
  and nothing is claimed about when a read returns.
- **Databases** are maps and sequences with the statements as functions on them; a
  transaction that fails puts the saved tables back. Failures of statements, requests
  refused by permission checks, and the choices of a scheduler are parameters.
- **Concurrency**: what the strands serialise is one atomic step each; steps of different
  tasks interleave freely.
- **Classes** carry the state that the C++ objects update in place; each method is proved
  equal to a specification function, and the laws are lemmas about those functions.
- **Header names** are told apart without regard to letter case, as the code expects when it
  asks one map for both `Content-Length` and `content-type`; the spelling first given is kept.
- **Inductions** are written out: every lemma switches automatic induction off.

## Where the code falls short of its promise

Each of these is a theorem with the exact condition, and `Counterexamples` holds an input
for which the promise fails.

- The 32-bit counter of `receive_body_` starts with the buffered bytes modulo 2^32 and stops
  at the length modulo 2^32. What is delivered, and when the loop never ends, is stated for
  every buffer and length (`HttpFraming.ReceiveFixed`); it is what the stream holds for the
  body exactly under the condition of `HttpFraming.DeliveredExactly`.
- A body of the announced length is received exactly when that length is below 2^32 and the
  stream, counted from the wrapped start, holds it; a shorter one is returned as if it were
  complete (`HttpFraming.AnnouncedExactly`).
- Looking up the content coding adds an empty field to the header map exactly when the body
  is chunked and no coding is given (`HttpFraming.TouchedExactly`).
- The header parser takes a character from an empty string exactly when the first line is
  empty or missing, or an empty line comes before the one that ends the fields
  (`HttpHeader.UndefinedExactly`). A block it refuses is not consumed, so the session loop
  meets it in every later round, until a response cannot be written
  (`HttpFraming.RefusedForever`).
- Whether a chunked body is decoded is independent of the segmentation exactly when each size
  line ends within 10240 bytes of where it starts (`HttpFraming.ReceiveChunked`).
- The parser keeps the blank after a header's colon, so a message that the framework itself
  prints as `Transfer-Encoding: chunked` is not treated as chunked
  (`RoundTrip.SpacedNeverChunked`).
- A status line is accepted exactly when its reason phrase, without the blanks in front of
  it, has no blank (`RoundTrip.ReasonPhraseExactly`).
- A length field the handler has set is kept. The response arrives as it was meant exactly
  when that length is the body's, or a larger one behind which the stream ends; what lies
  behind a smaller one is left in front of the next message
  (`RoundTrip.ArrivesIntactExactly`, `RoundTrip.LeftBehindExactly`).
- A header block is found under every segmentation exactly when it ends within the first
  10240 bytes, or one byte beyond a longer buffer (`MessageText.HeaderFoundExactly`,
  `MessageText.HeaderArrivesExactly`).
- A streamed file part is exact precisely when its delimiter is complete by the end of the
  10240-byte block in which the first `--boundary` becomes complete. Content without
  `--boundary` always meets this. Without any `--boundary` ahead the loop never ends; a
  first block shorter than the retained tail wraps the unsigned length around
  (`Multipart.StreamFile`).
- A key ending in `[]` under which something that is no list is already stored makes the
  call throw, with the earlier pairs already in the map (`UrlEncoded.StoredExactly`,
  `UrlEncoded.ThrowKeepsEarlier`).
- UPDATE and DELETE leave the global conditions out. They mean the predicate of a query
  exactly when there are no global conditions or every group repeats them all
  (`WhereCompiler.StatementsAgreeExactly`). An empty group prints as `()`, which SQL rejects
  (`WhereCompiler.ConditionMeansIntended`).
- Against NULL the operator is lost; a printed condition is the test it asks for exactly if
  it compares with a value, or with `=`, `IS` or `<=>` in any letter case
  (`WhereCompiler.ConditionExactly`).
- A migration ran once exactly when no call reached it, completed it and failed to record it
  (`Migrations.RanOnceExactly`).
- Somebody can be permitted to delete an organisation exactly when its parent is live
  (`Permissions.OrphansStay`); the root cannot be deleted because its parent id is NULL.
- A cascade flag above 1 outranks the flags that cascade and then fails the comparison
  with 1 (`Permissions.CanExactly`). A stored flag that already shows the requested bit keeps
  its number, so a request is met to the letter unless it asks for 1 where another number
  than 0 or 1 is stored (`AssignPermission.NewFlagExactly`).
- A create checks its parent before its transaction starts. If the parent is deleted in
  between, the closure table stays faithful exactly when nobody above the parent is live
  (`OrgHierarchy.CommitExactly`).
- After an unlock by any task that is not suspended, exclusion holds over every later run
  exactly when that task owned the mutex or the mutex was free
  (`AsyncMutex.StrayUnlockExactly`).
- Assigning permissions runs outside a transaction and stops at the unique index exactly
  when two requests ask for the same new row; what the requests before it wrote stays, and
  nothing is revoked (`AssignPermission.ThrowsExactly`, `AssignPermission.ThrowKeeps`).
- The lines in front of the parts of a multipart body are not compared with the boundary, and
  a text part loses the last character of its line, whatever it is
  (`Multipart.ParseMultipart`, `Multipart.ReadPart`). Likewise the header parser drops the
  last character of every line and skips lines without a colon (`HttpHeader.LinesRead`), and
  the two bytes behind a chunk are not looked at (`MessageText.DechunkExactly`).

Besides, the pool's upper limit `max_` is never looked at. The pool never gets larger than
its peak demand, and a run of clients takes it past any limit
(`ConnectionPool.AsLargeAsDemand`, `ConnectionPool.RushGrows`). `initialize` retries without
bound.

## Model

| member | source | states |
|---|---|---|
| Network.Peer.ReadSome | include/obelisk/http/core/io.h:33-34 | a read delivers the next unread bytes, between one and the size asked for, or fails; nothing is lost or reordered |
| Network.Peer.ReadFull | include/obelisk/http/core/io.h:76-77 | `async_read` delivers exactly the bytes asked for unless a fault or the end of the stream stops it |
| Network.FilledExactly | include/obelisk/http/core/io.h:32-38 | the do-while loop finds its delimiter under every segmentation if and only if the delimiter ends within the horizon |
| Network.FilledBound | include/obelisk/http/core/io.h:32-38 | the loop never holds more than one segment above the limit or above what it started with |
| Numbers.PrintThenParse | include/obelisk/http/core/io.h:59 | `stoul` and `stoull` read back a printed number behind white space and before other text, below 2^64 |
| Numbers.DigitExactly | include/obelisk/http/core/io.h:118 | a character is the digit worth d if and only if it is the d-th of `0123456789abcdef`, in either letter case, and d is below the base |
| Numbers.NumeralReads | include/obelisk/http/core/io.h:118 | every numeral, with digits in either letter case, is read as its positional value behind white space, a sign and a prefix; a minus sign wraps around, and 2^64 or more throws |
| Numbers.NoNumeral | include/obelisk/http/core/io.h:118 | without a digit behind white space and sign there is no number |
| HttpHeader.ReadHeader | source/http/parser_v2/http_parser_v3.cpp:61-86 | the line loop returns what the header grammar of the block says, for any bytes: three words or rejection, first value per key, `pop_back` on an empty line undefined |
| HttpHeader.ReadFields | source/http/parser_v2/http_parser_v3.cpp:74-84 | the field loop computes the map the lines mean, for any bytes |
| HttpHeader.UndefinedExactly | source/http/parser_v2/http_parser_v3.cpp:65-76 | `pop_back` meets an empty string if and only if the first line is empty or missing, or the start line has three words and an empty line comes before the line that ends the fields |
| HttpHeader.TailIgnored | source/http/parser_v2/http_parser_v3.cpp:62 | although the parser reads an unterminated view, what follows the blank line never changes the result |
| HttpHeader.HeaderRead | source/http/parser_v2/http_parser_v3.cpp:61-86 | every well-formed header block followed by any memory is parsed to its start line and its field map, leading blanks kept |
| HttpHeader.HeaderEnds | include/obelisk/http/core/io.h:43 | the first blank line of a stream that starts with a header block is that block's own |
| HttpHeader.WordsOfOne | source/http/parser_v2/http_parser_v3.cpp:67-69 | a text is one word exactly when it has no blank |
| HttpHeader.WordsRead | source/http/parser_v2/http_parser_v3.cpp:68 | words separated by runs of blanks of any length are read back as those words |
| HttpHeader.LinesRead | source/http/parser_v2/http_parser_v3.cpp:65-84 | for any words, lines and line ends: the block is accepted if and only if the first line has three words; the last character of each line is dropped whatever it is, and a line without colon is skipped |
| HttpHeader.NulEnds | source/http/parser_v2/http_parser_v3.cpp:62 | the parser sees everything up to the first NUL and nothing behind it |
| HttpHeader.FoldExactly | source/http/parser_v2/http_parser_v3.cpp:83 | two names are one if and only if they differ in the case of ASCII letters alone |
| HttpHeader.FieldMapExactly | source/http/parser_v2/http_parser_v3.cpp:83 | a name has a value if and only if some field has it in any spelling; it is that of the first such field, whose spelling stays |
| HttpFraming.FillUntil | include/obelisk/http/core/io.h:32-38 | the buffer ends as the segmentation function says, and buffer plus unread bytes stays the stream |
| HttpFraming.ReceiveUntil | include/obelisk/http/core/io.h:141-157 | for each segmentation, whether the delimiter is found; the returned offset is its first offset in the stream; failure without faults means it is absent or ends beyond the horizon |
| HttpFraming.LineSeenExactly | include/obelisk/http/core/io.h:143-156 | a size line is found under every segmentation if and only if it is buffered already or ends within the horizon |
| HttpFraming.ReceiveSize | include/obelisk/http/core/io.h:160-169 | returns the size asked for once that many bytes are buffered; failure without faults means the stream is shorter |
| HttpFraming.ReceivePiece | include/obelisk/http/core/io.h:125-130 | one round takes the next bytes of the stream, 10240 or what the chunk still lacks |
| HttpFraming.ReceiveChunkData | include/obelisk/http/core/io.h:122-131 | the output is exactly the next `length` bytes and the stream continues right behind them; the loop's byte count strictly decreases |
| HttpFraming.ReceiveChunkSize | include/obelisk/http/core/io.h:116-119 | the size is the hexadecimal reading of the first line, which is consumed with its line break |
| HttpFraming.SkipTwo | include/obelisk/http/core/io.h:132-133 | exactly two bytes are consumed, whatever they are |
| HttpFraming.ReceiveChunk | include/obelisk/http/core/io.h:114-134 | one round consumes exactly one chunk of the stream, or the last one |
| HttpFraming.ReceiveChunked | include/obelisk/http/core/io.h:106-138 | result and remaining stream are those of the declarative decoder under every segmentation if every size line ends within 10240 bytes; if one does not, one byte at a time fails |
| HttpFraming.ReceiveHeader | include/obelisk/http/core/io.h:28-48 | header, consumed bytes and remainder depend on the stream alone, and on failure nothing is consumed |
| HttpFraming.Transfer | include/obelisk/http/core/io.h:75-80 | one round takes from the front of the buffer as many bytes as the network added, in stream order |
| HttpFraming.ReceiveFixed | include/obelisk/http/core/io.h:62-85 | body plus buffer plus unread bytes is the stream; without faults, exactly how many bytes are delivered and when the loop never ends, for every length and buffer |
| HttpFraming.DeliveredExactly | include/obelisk/http/core/io.h:68-76 | the delivered bytes are those the stream holds for the body if and only if neither the counter's start nor its end wraps before they are all there |
| HttpFraming.BodyAtExactly | include/obelisk/http/core/io.h:50-86 | the result is what the stream spells, as far as it goes, if and only if the body is chunked, absent, or all of those bytes are delivered and the loop ends |
| HttpFraming.AnnouncedExactly | include/obelisk/http/core/io.h:62-85 | a body of exactly the announced length is returned if and only if the length is below 2^32 and the stream holds it from the wrapped start |
| HttpFraming.TouchedExactly | include/obelisk/http/core/io.h:52-53 | the header map is left as it was if and only if the body is not chunked or a content coding is given; otherwise it gains that field, empty, and nothing else changes |
| HttpFraming.ChunkedExactly | include/obelisk/http/core/io.h:52 | a body is chunked if and only if the first transfer coding given is `chunked`, in any letter case of name and value |
| HttpFraming.BodyAtSmall | include/obelisk/http/core/io.h:68-76 | it always is for lengths and buffers below 2^32 |
| HttpFraming.ReceiveBody | include/obelisk/http/core/io.h:50-86 | each of the branches (chunked, no length, zero length, fixed length) returns what the specification says for every buffer; under faults the bytes are conserved and a short body means a fault or the end of the stream |
| HttpFraming.FrameShortens | include/obelisk/http/core/io.h:27-86 | no message leaves a longer stream behind |
| HttpFraming.ReceiveMessage | source/http/http_server.cpp:94-95 | one header and its body: the next frame of the stream, for every segmentation |
| HttpFraming.RefusedForever | source/http/http_server.cpp:90-94 | once a complete block is rejected, no later round of the session gets to a message, however many there are, and nothing is consumed |
| HttpFraming.CountsShort | include/obelisk/http/core/io.h:68-70 | any number of messages may follow once less than 4 GiB of the stream is left |
| HttpFraming.CountsFew | include/obelisk/http/core/io.h:68-70 | and 419,429 messages of any size may come before that |
| HttpFraming.ReceiveMessages | source/http/http_server.cpp:88-95 | as long as either holds for each message in turn, the rounds return the frames in order and leave exactly the rest |
| MessageText.ChunkedRoundTrip | include/obelisk/http/core/io.h:106-138 | for every body, every cut into non-empty chunks and any two bytes behind each, decoding returns the body and stops behind the last chunk (section 7.1 of RFC 9112); the size lines fit if and only if each is short |
| MessageText.DechunkExactly | include/obelisk/http/core/io.h:114-137 | a stream decodes to a body and a rest if and only if it is an encoding of that body followed by that rest |
| MessageText.HexSizeLine | include/obelisk/http/core/io.h:118 | every hexadecimal numeral below 2^64, digits in either letter case, leading zeros and an extension allowed, is a size line of its value |
| MessageText.FrameOfMessage | include/obelisk/http/core/io.h:28-86 | a sent message, framed by its length or in chunks, followed by anything is cut out as exactly that message |
| MessageText.KeepAlive | include/obelisk/http/core/io.h:27-48 | a stream made of messages is cut into exactly those messages, the rest untouched |
| MessageText.ReceiveAll | include/obelisk/http/core/io.h:27-86 | the receiving code returns the messages a stream was made of, both framings mixed, in order, for every segmentation |
| MessageText.HeaderFoundExactly | include/obelisk/http/core/io.h:38-41 | a header is found under every segmentation if and only if it ends within the horizon |
| MessageText.HeaderArrivesExactly | include/obelisk/http/core/io.h:38-41 | a well-formed header is found under every segmentation if and only if it has at most 10240 bytes |
| OutgoingData.StreamWrapper.Read | source/http/core/http_iodata_stream_wrapper.cpp:7-10 | a read returns the next bytes; end of file shows only after a read past the end |
| OutgoingData.MultiStream.Append | source/core/http_iodata.cpp:5-7 | the bytes still to come grow by the new stream's, at the end |
| OutgoingData.MultiStream.Read | source/core/http_iodata.cpp:12-21 | reads refine concatenation: the result is the next stretch of all sub-streams and is short only at the overall end |
| OutgoingData.MultiStream.Size | source/core/http_iodata.cpp:23-29 | the size is the length of the concatenated contents |
| OutgoingData.MultiStream.Eof | source/core/http_iodata.cpp:31-33 | end of file means nothing is left |
| OutgoingData.WriteBlock | include/obelisk/http/core/io.h:94-99 | a block reaches the wire once and in order however the writes are cut; after a failure the wire holds a prefix |
| OutgoingData.WriteData | include/obelisk/http/core/io.h:89-102 | the loop ends having sent every byte of every sub-stream once and in order, in spite of late end-of-file flags |
| RoundTrip.HttpResponse.SerializeHeader | source/http/core/http_response.cpp:65-73 | the text is a header block with one line per field of the map and no other, each value behind one blank, in whatever order the map is walked; its length is that of the map's lines |
| RoundTrip.SizeOfOneMore | source/http/core/http_response.cpp:68-70 | the printed length does not depend on the order in which the map is walked |
| RoundTrip.HttpResponse.CompleteAndPrint | source/http/core/http_response.cpp:76-78 | every field stays as it is, the length field is added if the body has none, and the map is printed |
| RoundTrip.HttpResponse.JoinBody | source/http/core/http_response.cpp:80-85 | header text and body become one stream, and the response gives its body away |
| RoundTrip.HttpResponse.Serialize | source/http/core/http_response.cpp:75-86 | header text followed by the body's bytes; no field is lost or overwritten, the length field included; the response gives its body away |
| RoundTrip.SpacedNeverChunked | source/http/core/http_response.cpp:69 | no header map printed by `serialize_header` is recognised as chunked |
| RoundTrip.LengthFieldReads | source/http/core/http_response.cpp:77 | the length field reads back as the length |
| RoundTrip.CompletedKeeps | source/http/core/http_response.cpp:65-77 | every field of the map is in the completed map unchanged, and arrives in its spelling with its value behind one blank; the only other one is the length of a body without length field |
| RoundTrip.CompletedAnnounces | source/http/core/http_response.cpp:76-77 | the completed header map announces the body it is sent with |
| RoundTrip.Send | include/obelisk/http/core/io.h:89-102 | the bytes on the wire are one well-formed message with the response's start line and body and the fields of the header map it had, completed by the length, each once |
| RoundTrip.SendAndReceive | source/http/core/http_response.cpp:65-86 | a one-token-reason response whose header fits into 10240 bytes arrives with its start line, the header map it had completed by the length, up to the blank, and its body, under any partial writes and any segmentation |
| RoundTrip.SendAsIs | source/http/core/http_response.cpp:65-86 | whatever the length field says, the wire holds the header with each field of the completed map once, and then every byte of the body |
| RoundTrip.SendAndReceiveAny | source/http/core/http_response.cpp:76-77 | how any printable response arrives, and what of its body is left on the connection, for every announced length below 2^32 |
| RoundTrip.ArrivesIntactExactly | source/http/core/http_response.cpp:76-77 | it arrives as it was meant if and only if the announced length is the body's, or larger with a body that is not empty |
| RoundTrip.LeftBehindExactly | source/http/core/http_response.cpp:76-77 | the body from the announced length on is left in front of the next message, and nothing if and only if all of it was announced |
| RoundTrip.SendAll | source/http/http_server.cpp:163-171 | the responses of one connection are on the wire one after the other, each once |
| RoundTrip.ExchangeAll | source/http/core/http_response.cpp:65-86 | any number of responses over one connection arrive as those responses, in order, each with its start line, all its fields and its body, under any partial writes and any segmentation |
| RoundTrip.ReasonPhraseExactly | source/http/parser_v2/http_parser_v3.cpp:68-69 | a status line is accepted if and only if its reason phrase has no blank once the blanks in front of it are dropped, and then read with the phrase so trimmed; otherwise it is rejected |
| Multipart.StreamFile | source/http/parser_v2/http_parser_v3.cpp:174-200 | for every stream: when the loop ends, what it writes and where it leaves the stream; when it never ends; when the tail length wraps |
| Multipart.Digest | source/http/parser_v2/http_parser_v3.cpp:183-197 | one round keeps the window invariant: everything but the last `boundary.size() + 5` searched bytes is on disk, nothing twice |
| Multipart.StreamedExactly | source/http/parser_v2/http_parser_v3.cpp:179-198 | corollary of StreamFile over all its outcomes: the loop ends with exactly the part that was sent if and only if the delimiter is in time and the tail length does not wrap |
| Multipart.ContentRecovered | source/http/parser_v2/http_parser_v3.cpp:174-200 | content without `--boundary` always meets the condition, wherever the blocks end, and the tail length never wraps |
| Multipart.ReadFile | source/http/parser_v2/http_parser_v3.cpp:173-201 | such content is written byte for byte and the stream stands at the next boundary line |
| Multipart.ReadMeta | source/http/parser_v2/http_parser_v3.cpp:135-165 | the lines in front of a content are accepted if they fit the grammars and a blank line follows, and only then |
| Multipart.ReadPart | source/http/parser_v2/http_parser_v3.cpp:135-201 | a well-formed part, text or file, is read back as itself; and whatever is accepted before the stream ends was there: lines that fit the grammars, a blank line, and the text or the streamed file behind them |
| Multipart.ParseMultipart | source/http/parser_v2/http_parser_v3.cpp:121-220 | a body written for any list of parts, with any lines in front of them, is read back as that list, in order |
| UrlEncoded.PairsRoundTrip | source/http/parser_v2/http_parser_v3.cpp:32 | printed pairs are read back if and only if no key holds `&` or `=` and no value holds `&` |
| UrlEncoded.ReadsExactly | source/http/parser_v2/http_parser_v3.cpp:32 | a text is read to some pairs if and only if it spells them: keys without `&` and `=`, values without `&`, and the `=` left out at most where there is no value |
| UrlEncoded.ParseIsCanonical | source/http/parser_v2/http_parser_v3.cpp:32 | any text is read to the same pairs as their own printed form |
| UrlEncoded.OnePairEach | source/http/parser_v2/http_parser_v3.cpp:226 | every text parses, to one pair more than it has ampersands |
| UrlEncoded.Params.Parse | source/http/parser_v2/http_parser_v3.cpp:224-242 | the loop stores the parsed pairs as the specification does and reports a throw |
| UrlEncoded.StoredExactly | source/http/parser_v2/http_parser_v3.cpp:229-240 | the call throws if and only if an array key meets a stored value that is no list; otherwise plain keys hold their last value and array keys their old list followed by all values in order |
| UrlEncoded.ClashExactly | source/http/parser_v2/http_parser_v3.cpp:231-236 | an array key is a name followed by `[]`; it starts from the list stored under it and clashes with anything else but null |
| UrlEncoded.ListsGrow | source/http/parser_v2/http_parser_v3.cpp:231-236 | under a name with `[]` stand the old items and then each value given, whole and in order |
| UrlEncoded.ThrowKeepsEarlier | source/http/parser_v2/http_parser_v3.cpp:235-236 | a throw leaves what the earlier pairs stored |
| UrlEncoded.FormStored | source/http/parser_v2/http_parser_v3.cpp:224-242 | a printed form, parsed and stored into any map, gives those contents |
| Router.RouteRead | source/http/router/route_item.cpp:23-29 | every spelling of a pattern is read back as the pattern, up to a stray closing brace; an empty or unclosed name throws |
| Router.EveryRoute | source/http/router/route_item.cpp:23-29 | there are no other route texts |
| Router.MatchExactly | source/http/router/route_item.cpp:31-42 | a path matches if and only if it splits into the literals, slash-free holes and wildcards; the captures are the greediest split |
| Router.Extract | source/http/router/route_param.cpp:12-28 | succeeds exactly on splittable paths and adds the captures of named holes in order |
| Router.ExtractedFirst | source/http/router/route_param.cpp:22 | each capture lands under its own name, and of a repeated name the first counts |
| Router.ExtractedKeeps | source/http/router/route_param.cpp:22 | parameters that were there before keep their value |
| Router.ExtractedOnlyNames | source/http/router/route_param.cpp:19-23 | nothing else is added |
| Router.FillThenMatch | source/http/router/route_item.cpp:31-48 | filling holes that end at a slash or at the end with slash-free values, and a final wildcard with anything, and matching returns those values |
| Router.OneCapture | source/http/router/route_item.cpp:31-42 | behind a literal a wildcard takes any rest of the line, slashes included, and a named hole takes it if and only if it has no slash |
| WhereCompiler.SeparateWith | include/obelisk/database/builder/detail/utils.h:14-25 | the loop joins the texts with separators between them only |
| WhereCompiler.Builder.Apply | include/obelisk/database/builder/detail/enable_where_condition.h:15-37 | `where` extends the latest group or opens the first, `or_where` opens one, `global_where` appends to the globals |
| WhereCompiler.CallMeans | include/obelisk/database/builder/detail/enable_where_condition.h:15-37 | what each call adds to the predicate: a conjunct to the latest alternative, an alternative, or a conjunct to everything |
| WhereCompiler.Builder.Compile | include/obelisk/database/builder/detail/enable_where_condition.h:39-56 | the printed tokens are those of the specification |
| WhereCompiler.ConditionMeansIntended | include/obelisk/database/builder/detail/if_format.h:13-20 | the condition without the keyword, as `IF` embeds it, means what was intended if and only if no group is empty |
| WhereCompiler.WhereMeansIntended | include/obelisk/database/builder/detail/enable_where_condition.h:39-56 | read with AND above OR in three-valued logic, the text means (OR of ANDs) AND globals if and only if no group is empty; otherwise it is a syntax error |
| WhereCompiler.BuilderMeansIntended | include/obelisk/database/builder/detail/enable_where_condition.h:15-56 | the same for every sequence of builder calls with non-empty lists |
| WhereCompiler.ReadParens | include/obelisk/database/builder/detail/condition_group.h:23-26 | a compiled group is read as one operand meaning the conjunction of its conditions |
| WhereCompiler.Builder.CompileForStatement | source/database/builder/delete_statement.cpp:8-11 | DELETE and UPDATE print the groups and nothing else |
| WhereCompiler.StatementsAgreeExactly | source/database/builder/update_statement.cpp:17-20 | they mean the query's predicate for every row if and only if there are no globals or every group repeats them all |
| WhereCompiler.ConditionExactly | include/obelisk/database/builder/detail/condition.h:35-51 | a printed condition is the test it asks for, for every row, if and only if it compares with a value or its operator is `=`, `IS` or `<=>` |
| WhereCompiler.QueryAnswersAsked | include/obelisk/database/builder/detail/enable_where_condition.h:39-56 | for such conditions in non-empty groups, a database that reads the printed text answers for each row what the conditions ask: (OR of ANDs) AND globals |
| Migrations.Database.RunMigration | include/obelisk/database/db.h:80-126 | tables and completed migrations after a call, for every pattern of failures |
| Migrations.RunKeeps | include/obelisk/database/db.h:107-124 | over any calls with prefixes of disjoint lists: recorded names of each list form a prefix of it, none twice, batches never decrease, no `up` ran before its predecessor's, and completed runs are the recorded ones plus those whose insert failed |
| Migrations.BatchPerCall | include/obelisk/database/db.h:94-103 | a call only appends rows and gives them one batch number above all earlier ones |
| Migrations.BatchesCountUp | include/obelisk/database/db.h:94-103 | over any run the first batch is 1 and each further one is one more than the one before |
| Migrations.ThrowsEarly | include/obelisk/database/db.h:84-103 | a call throws if and only if one of the statements before the list fails, and then leaves the rows alone |
| Migrations.WalkLoses | include/obelisk/database/db.h:104-125 | a call completes a migration without recording it if and only if it passes all earlier members, the migration is not recorded, and the insert fails |
| Migrations.RanOnceExactly | include/obelisk/database/db.h:104-125 | a recorded migration ran once over a run if and only if no call of the run lost it in that way |
| Migrations.SettledExactly | include/obelisk/database/db.h:104-125 | calls change nothing whatever fails if and only if everything is recorded, and one smooth call gets there |
| OrgHierarchy.Database.BackendCreate | test/module/default/controllers/sys_organization_controller.cpp:65-99 | both tables after a create, the new organisation live and under the parent asked for, and unchanged when it is refused or its transaction fails |
| OrgHierarchy.Database.BackendDelete | test/module/default/controllers/sys_organization_controller.cpp:139-157 | both tables after a soft delete, and unchanged when it is refused or fails |
| OrgHierarchy.NewRowsFacts | test/module/default/controllers/sys_organization_controller.cpp:90-96 | the inserted rows are the parent's ancestors one step further and the node itself, each once |
| OrgHierarchy.CreateKeeps | test/module/default/controllers/sys_organization_controller.cpp:85-98 | a create that commits under a live parent keeps the table equal to the parent chains |
| OrgHierarchy.CommitExactly | test/module/default/controllers/sys_organization_controller.cpp:67-98 | whatever became of the parent since it was checked, the table stays faithful if and only if the parent is live or nobody above it is |
| OrgHierarchy.DeleteKeeps | test/module/default/controllers/sys_organization_controller.cpp:146-156 | a delete that commits keeps it, of inner nodes too, and of nodes deleted meanwhile |
| OrgHierarchy.ActKeepsExactly | test/module/default/controllers/sys_organization_controller.cpp:67-156 | with checks and transactions of several requests interleaved, an action keeps the table faithful if and only if it is in time |
| OrgHierarchy.OverlapKeeps | test/module/default/controllers/sys_organization_controller.cpp:67-156 | over any overlapping run whose creates are in time the table is faithful |
| OrgHierarchy.InitialFaithful | test/module/default/migrations/create_sys_organization_table.h:41-48 | the migration's rows are faithful |
| OrgHierarchy.ClosureFaithful | test/module/default/controllers/sys_organization_controller.cpp:69-156 | after any run of creates and deletes, one request after the other, the table holds exactly the triples (a, d, n) of live organisations n parent steps apart, once each |
| OrgHierarchy.CreateExactly | test/module/default/controllers/sys_organization_controller.cpp:73-98 | a create adds one live organisation under the parent it names, with a row for each row of that parent and one for itself, if and only if it is permitted, the parent is live and no statement fails; nothing else changes |
| OrgHierarchy.DeleteExactly | test/module/default/controllers/sys_organization_controller.cpp:139-156 | a delete marks its target, keeps its parent pointer, drops the rows that name it, and changes nothing else |
| OrgHierarchy.StepIsActs | test/module/default/controllers/sys_organization_controller.cpp:67-156 | a request that nobody interferes with is its check and then its commit |
| Permissions.Can | test/module/default/utils/utils.h:136-163 | the query's answer does not depend on which of the equally ranked rows comes first |
| Permissions.CanExactly | test/module/default/utils/utils.h:136-163 | given a faithful table, for any flags, it is true if and only if a live role in the admin's own organisation carries the code and the target is that organisation, or lies below it, some such grant cascades and no flag above 1 outranks it |
| Permissions.CanAfterAnyRun | test/module/default/utils/utils.h:136-163 | the same after any run of creates and deletes |
| Permissions.OrphansStay | test/module/default/controllers/sys_organization_controller.cpp:143-145 | some admin can be permitted to delete an organisation if and only if its parent is live |
| AssignPermission.RolePermissionTable.BackendAssignPermission | test/module/default/controllers/sys_role.cpp:214-269 | the table after the grant and revoke loops, and whether the unique index stopped them |
| AssignPermission.ThrowsExactly | test/module/default/controllers/sys_role.cpp:223-230 | the loop stops with an exception if and only if two requests ask for the same new row |
| AssignPermission.GrantedAsAsked | test/module/default/controllers/sys_role.cpp:217-248 | for any requests, a permission the caller may hand on ends up with the last flags asked for that differ from what was shown, for any stored flags; a new row with those of its one request; the cascade flag only if the caller's own grant cascades; revoked ones are gone |
| AssignPermission.NewFlagExactly | test/module/default/controllers/sys_role.cpp:237-246 | an update stores the requested number unless it is 1 and the stored one is neither 0 nor 1; then the stored one stays |
| AssignPermission.FirstExactly | test/module/default/controllers/sys_role.cpp:200-207 | a call has to do with a permission if and only if a live role given to the admin holds it with the grant flag at 1 |
| AssignPermission.ChangedIfAsked | test/module/default/controllers/sys_role.cpp:211-268 | a row changes only if it is the target role's, the admin may hand its permission on, and the permission is requested or revoked |
| AssignPermission.ThrowKeeps | test/module/default/controllers/sys_role.cpp:211-252 | an exception leaves what the requests before it wrote, and nothing is revoked |
| AssignPermission.AssignKeeps | test/module/default/controllers/sys_role.cpp:188-269 | one call gives no permission its first grantor or first cascading holder, and touches only the target role's rows for the caller's grantable permissions |
| AssignPermission.NeverGrows | test/module/default/controllers/sys_role.cpp:188-269 | over any run of calls by any admins, one after the other, neither set ever grows |
| AssignPermission.ActBelow | test/module/default/controllers/sys_role.cpp:209-268 | a snapshot, or a single write of a call whose snapshot is older than the table, adds to neither set |
| AssignPermission.OverlapNeverGrows | test/module/default/controllers/sys_role.cpp:188-269 | however the queries and writes of any number of calls interleave, neither set ever grows |
| AsyncMutex.Mutex.LockSection | include/obelisk/core/coroutine/async_mutex.h:29-40 | takes the free mutex or queues up at the end |
| AsyncMutex.Mutex.UnlockSection | include/obelisk/core/coroutine/async_mutex.h:54-67 | wakes exactly the first waiter, frees the mutex if there is none, and ignores a free mutex |
| AsyncMutex.StepObject | include/obelisk/core/coroutine/async_mutex.h:24-69 | the system's steps are what the object's sections do |
| AsyncMutex.MutualExclusion | include/obelisk/core/coroutine/async_mutex.h:24-69 | in every reachable state at most one task owns the mutex, it is locked exactly when one does, waiters imply locked, and tasks are granted it in the order they entered |
| AsyncMutex.GrantedByUnlock | include/obelisk/core/coroutine/async_mutex.h:59-67 | the waiter at position k gets the mutex by exactly the (k+1)-th unlock section, whatever else happens |
| AsyncMutex.OwnerCanMove | include/obelisk/core/coroutine/async_mutex.h:35-42 | while somebody waits, an owner has a step to take: no wake-up is lost |
| AsyncMutex.StrayUnlockExactly | include/obelisk/core/coroutine/async_mutex.h:54-67 | after an unlock by any task that is not suspended, one that never locked included, exclusion holds over every later run if and only if the mutex was not locked by another |
| ConnectionPool.Pool.Initialize | include/obelisk/database/connection_pool/connection_pool.h:154-182 | failed attempts are retried until five distinct connections are queued in order |
| ConnectionPool.Pool.TakeIdle | include/obelisk/database/connection_pool/connection_pool.h:187-193 | the oldest idle connection, if any, leaves the queue |
| ConnectionPool.Pool.MakeIfNone | include/obelisk/database/connection_pool/connection_pool.h:199-202 | a connection is made only if none was taken, and a failing maker throws |
| ConnectionPool.Pool.PutIdle | include/obelisk/database/connection_pool/connection_pool.h:216-219 | a returned connection goes to the end of the queue |
| ConnectionPool.StepObject | include/obelisk/database/connection_pool/connection_pool.h:185-227 | the system's steps are what the object's sections do |
| ConnectionPool.Ownership | include/obelisk/database/connection_pool/connection_pool.h:185-227 | in every reachable state each created connection is in exactly one place (queue, one client, on its way back, deleted), the counts add up, and the queue is first in, first out |
| ConnectionPool.OldestFirst | include/obelisk/database/connection_pool/connection_pool.h:189-193 | a client that finds the queue non-empty gets the connection queued longest ago and none is made |
| ConnectionPool.AsLargeAsDemand | include/obelisk/database/connection_pool/connection_pool.h:187-202 | over every run the pool is never larger than it was or than the peak of clients asking or holding and connections returning |
| ConnectionPool.RushGrows | include/obelisk/database/connection_pool/connection_pool.h:229-230 | for every n there is a run after which n connections exist, whatever `max_` says |
| ConnectionPool.GoneForGood | include/obelisk/database/connection_pool/connection_pool.h:207-211 | a deleted connection is never leased again, and never queued |
| ConnectionPool.ReleaseExactly | include/obelisk/database/connection_pool/connection_pool.h:205-220 | a released connection is on its way back if and only if it can be used again and the pool runs, and deleted otherwise; no other connection moves |
| ConnectionPool.StoppedForGood | include/obelisk/database/connection_pool/connection_pool.h:207 | over every run the pool is stopped if and only if it was or a stop is among the steps |
| ConnectionPool.BrokenIsGone | include/obelisk/database/connection_pool/connection_pool.h:207-211 | over every later run, a connection released as broken is never leased or queued |
| ConnectionPool.ReturnWaits | include/obelisk/database/connection_pool/connection_pool.h:216-219 | over every later run, one on its way back waits for its own return, which puts it at the end of the queue |
| SecurePath.SecurePath | test/clients/filesystem/local_fs.h:57-71 | the three loops end on every path and compute the one-pass normal form: the first two need at most one round |
| SecurePath.UndottedFree | test/clients/filesystem/local_fs.h:62-63 | one pass leaves no `..` |
| SecurePath.UnhiddenFree | test/clients/filesystem/local_fs.h:64-65 | one pass leaves no `./` and brings no `..` back |
| SecurePath.HalvedKeeps | test/clients/filesystem/local_fs.h:66-67 | a pass over `//` does not change the collapsed path |
| SecurePath.ResultClean | test/clients/filesystem/local_fs.h:57-71 | the result starts with a slash and holds no backslash, `..`, `./` or `//` |
| SecurePath.CleanExactly | test/clients/filesystem/local_fs.h:57-71 | the paths left alone are exactly the clean ones |
| SecurePath.Idempotent | test/clients/filesystem/local_fs.h:57-71 | securing twice is securing once |
| SecurePath.NamesKept | test/clients/filesystem/local_fs.h:57-71 | the names between the slashes of a path come through in order, none lost or merged; what is lost of them is dots |
| SecurePath.ComponentsClean | test/clients/filesystem/local_fs.h:57-71 | without the three patterns, no component is `..`, no inner one is empty and only the last can end in a dot |
| SecurePath.StaysInside | test/clients/filesystem/local_fs.h:19 | followed component by component, the result never leaves the directory it is appended to |
| Counterexamples.FourGibibytesSpin | include/obelisk/http/core/io.h:74-75 | `Content-Length: 4294967296` delivers nothing and never ends, whatever is sent |
| Counterexamples.ShortBodyPasses | include/obelisk/http/core/io.h:81-85 | five bytes announced, three received, and returned as the body |
| Counterexamples.EmptyCodingAppears | include/obelisk/http/core/io.h:53 | a chunked message gains an empty content coding |
| Counterexamples.EmptyFirstLine | source/http/parser_v2/http_parser_v3.cpp:65-66 | a block that starts with a bare newline |
| Counterexamples.ChunkedIsLost | source/http/core/http_response.cpp:69 | a chunked response of the framework's own is not received as chunked |
| Counterexamples.NotFoundIsRejected | source/http/parser_v2/http_parser_v3.cpp:69 | the status line `404 Not Found` is rejected |
| Counterexamples.BlankBeforeReason | source/http/parser_v2/http_parser_v3.cpp:68 | the phrase ` OK` is accepted and read as `OK` |
| Counterexamples.ShortLengthField | source/http/core/http_response.cpp:77 | a handler that announces three of five bytes: three arrive, two are left |
| Counterexamples.LongSizeLine | include/obelisk/http/core/io.h:144-151 | a chunk-size line of 10240 zeros is too long for some segmentation |
| Counterexamples.LongHeaderIsMissed | include/obelisk/http/core/io.h:38-41 | a header of 10244 bytes is missed under some segmentation |
| Counterexamples.StraddlingDelimiter | source/http/parser_v2/http_parser_v3.cpp:185-196 | content that starts with `--b` is not streamed exactly when its delimiter lies in the second block |
| Counterexamples.NoBoundarySpins | source/http/parser_v2/http_parser_v3.cpp:186-198 | six or more bytes without the boundary `b` are read for ever, and fewer make the tail length wrap |
| Counterexamples.EmptyStreamWraps | source/http/parser_v2/http_parser_v3.cpp:186 | an empty stream makes the tail length wrap |
| Counterexamples.AmpersandInKey | source/http/parser_v2/http_parser_v3.cpp:32 | a key with `&` is not read back |
| Counterexamples.ListMeetsText | source/http/parser_v2/http_parser_v3.cpp:235-236 | `a[]=y` throws when text is stored under `a[]` |
| Counterexamples.GlobalConditionDropped | source/database/builder/delete_statement.cpp:8-11 | a row that the query rejects and DELETE deletes |
| Counterexamples.EmptyGroupIsNoSql | include/obelisk/database/builder/detail/condition_group.h:23-26 | an empty group prints what SQL does not read |
| Counterexamples.NotEqualNull | include/obelisk/database/builder/detail/condition.h:49 | `x != NULL` is printed as the test for NULL |
| Counterexamples.MigrationRunsTwice | include/obelisk/database/db.h:113-118 | one failed insert, and the next call runs the migration again |
| Counterexamples.OrphanOfTheRoot | test/module/default/controllers/sys_organization_controller.cpp:143-145 | after two creates and a delete, a live organisation nobody may delete |
| Counterexamples.CommitUnderTheDead | test/module/default/controllers/sys_organization_controller.cpp:73-98 | a create that commits after its parent was deleted leaves a row out |
| Counterexamples.LargeFlagOutranks | test/module/default/utils/utils.h:155-161 | a flag of 2 takes away what a flag of 1 gives |
| Counterexamples.SameRequestTwice | test/module/default/controllers/sys_role.cpp:223-230 | two requests for the same new row throw |
| Counterexamples.TwoStaysTwo | test/module/default/controllers/sys_role.cpp:242-246 | a grant flag stored as 2 stays when 1 is requested |
| Counterexamples.StrayUnlock | include/obelisk/core/coroutine/async_mutex.h:54-67 | an unlock by a task that owns nothing puts two owners in place |
| Counterexamples.StrayUnlockThenLock | include/obelisk/core/coroutine/async_mutex.h:29-33 | with nobody waiting, the next lock is granted beside the holder |
| Counterexamples.PoolPassesItsMaximum | include/obelisk/database/connection_pool/connection_pool.h:230 | a hundred and one clients and a hundred and one connections |

## Left out

- HttpFraming.ReceiveBody: gzip content coding of chunked bodies is not modelled.
- HttpFraming.ReceiveMessages: makes no claim about when a read returns, because `receive_header_` always reads before it looks at the buffer. A message that comes after 419,429 others with 4 GiB or more still ahead is covered on its own only (`HttpFraming.BodyAtExactly`), because pipelined reads can then fill the buffer beyond what the counter holds.
- MessageText.ReceiveAll: the same bound.
- HttpHeader.ReadHeader: the fold of header names is that of ASCII letters; the map itself comes from the sahara library, which is not part of this repository.
- OutgoingData.MultiStream.Read: sub-streams are stream wrappers, not nested multi-streams, and reads of the wrapped streams do not fail.
- Multipart.ParseMultipart: the grammars of Content-Disposition and Content-Type lines are parameters, and storing a part under its name and merging it into the parameters is not modelled.
- Multipart.ReadPart: what is made of a part inside which the stream ends is not stated.
- Router.MatchExactly: literals are taken free of characters that mean something in a regular expression.
- WhereCompiler.Builder.Compile: conditions are tokens; quoting, column prefixes, sub-queries and the rest of the SQL text are not modelled.
- Migrations.Database.RunMigration: `down`, the column blueprints and the collation of the name comparison are not modelled; a failed insert leaves no row.
- OrgHierarchy.Database.BackendCreate: the other columns, foreign keys and name uniqueness only appear as failure points; a lost COMMIT is one of them.
- AssignPermission.AssignKeeps: which of several granting roles of the admin comes first in the query is a parameter.
- AsyncMutex.MutualExclusion: the executor on which a cancelled timer resumes its coroutine is behaviour of Asio and not modelled.
- `can_cascade` and `_insert_permission`: smaller variants of the modelled query and insert.
- `multi_stream_iodata::seekg` after reads: it does not reset the offset and offers no general claim.
- The experimental pool, validators, MIME types, configuration, TLS, timers, signing and the other controllers: wiring or foreign libraries.
