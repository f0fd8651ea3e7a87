/** What a sender writes, and the theorem that the receiving side recovers it. */
module MessageText {
  import opened Results
  import opened Search
  import opened Numbers
  import opened Network
  import opened HttpHeader
  import opened HttpFraming

  // ---- Chunked bodies, section 7.1 of RFC 9112 ----

  /** A chunk: its size line as written (extensions, leading zeros and letter case are free),
      its data, and the two bytes behind the data, whatever they are. */
  datatype WireChunk = WireChunk(line: string, data: string, after: string)

  predicate SizeLine(line: string, n: nat) {
    ParseUnsigned(line, 16) == Some(n) && !Contains(line + "\r", CRLF)
  }

  predicate ValidChunk(c: WireChunk) {
    SizeLine(c.line, |c.data|) && |c.after| == 2
  }

  /** Chunks with data, and the one without that ends them. */
  predicate ValidChunks(cs: seq<WireChunk>, last: WireChunk) {
    (forall i | 0 <= i < |cs| :: cs[i].data != "" && ValidChunk(cs[i])) && last.data == "" && ValidChunk(last)
  }

  predicate ShortLines(cs: seq<WireChunk>, last: WireChunk) {
    (forall i | 0 <= i < |cs| :: |cs[i].line| + 2 <= SEGMENT) && |last.line| + 2 <= SEGMENT
  }

  function ChunkText(c: WireChunk): string {
    c.line + CRLF + (c.data + c.after)
  }

  function Encode(cs: seq<WireChunk>, last: WireChunk): string {
    if cs == [] then ChunkText(last) else ChunkText(cs[0]) + Encode(cs[1..], last)
  }

  function Payload(cs: seq<WireChunk>): string {
    if cs == [] then "" else cs[0].data + Payload(cs[1..])
  }

  lemma {:induction false} SizeLineEnds(line: string, rest: string)
    requires !Contains(line + "\r", CRLF)
    ensures Find(line + CRLF + rest, CRLF) == |line|
  {
    var s := line + CRLF + rest;
    var b := line + "\r";
    assert b <= s && s == b + ("\n" + rest);
    FindInPrefix(b, s, CRLF);
    assert OccursAt(s, CRLF, |line|);
    ContainsAt(s, CRLF, |line|);
  }

  lemma {:induction false} HeadOfChunk(c: WireChunk, next: string)
    requires ValidChunk(c)
    ensures var s := ChunkText(c) + next;
            && ReadHead(s) == (if c.data == "" then Last(next) else Chunk(c.data, next))
            && Find(s, CRLF) == |c.line|
  {
    hide ParseUnsigned;
    var t := c.data + c.after + next;
    var s := c.line + CRLF + t;
    assert ChunkText(c) + next == s;
    SizeLineEnds(c.line, t);
    assert s[..|c.line|] == c.line && s[|c.line| + 2..] == t;
    assert t[..|c.data|] == c.data && t[|c.data| + 2..] == next;
  }

  /** For every body and every way of cutting it into chunks, decoding returns the body and
      stops right behind the last chunk; and the receiving loop does not depend on the
      segmentation exactly when the size lines are short. */
  lemma {:induction false} ChunkedRoundTrip(cs: seq<WireChunk>, last: WireChunk, rest: string)
    requires ValidChunks(cs, last)
    ensures Dechunk(Encode(cs, last) + rest) == Some((Payload(cs), rest))
    ensures LinesFit(Encode(cs, last) + rest) <==> ShortLines(cs, last)
  {
    hide ReadHead, Find, ValidChunk, ChunkText;
    if cs == [] {
      HeadOfChunk(last, rest);
    } else {
      var next := Encode(cs[1..], last) + rest;
      HeadOfChunk(cs[0], next);
      assert Encode(cs, last) + rest == ChunkText(cs[0]) + next;
      ChunkedRoundTrip(cs[1..], last, rest);
      FirstShort(cs, last);
    }
  }

  lemma {:induction false} FirstShort(cs: seq<WireChunk>, last: WireChunk)
    requires cs != []
    ensures ShortLines(cs, last) <==> |cs[0].line| + 2 <= SEGMENT && ShortLines(cs[1..], last)
  {
    assert forall i | 0 < i < |cs| :: cs[i] == cs[1..][i - 1];
    assert forall i | 0 <= i < |cs| - 1 :: cs[1..][i] == cs[i + 1];
  }

  /** A text cut at its first line break. */
  lemma {:induction false} LineCut(s: string)
    requires Find(s, CRLF) >= 0
    ensures var i := Find(s, CRLF); s == s[..i] + CRLF + s[i + 2..] && !Contains(s[..i] + "\r", CRLF)
  {
    var i := Find(s, CRLF);
    assert s[i..i + 2] == CRLF;
    assert s == s[..i] + s[i..i + 2] + s[i + 2..];
    assert s[..i + 1] == s[..i] + [s[i]] == s[..i] + "\r";
    FindInPrefix(s[..i + 1], s, CRLF);
  }

  lemma {:induction false} DataCut(t: string, n: nat)
    requires n + 2 <= |t|
    ensures t == t[..n] + t[n..n + 2] + t[n + 2..]
  {
  }

  /** The chunk a head was read from. */
  lemma {:induction false} ChunkOfHead(s: string) returns (c: WireChunk, next: string)
    requires !ReadHead(s).Malformed?
    ensures ValidChunk(c) && s == ChunkText(c) + next
    ensures ReadHead(s) == if c.data == "" then Last(next) else Chunk(c.data, next)
  {
    hide ParseUnsigned, Find, Contains;
    var i := Find(s, CRLF);
    var line, t := s[..i], s[i + 2..];
    var n := ParseUnsigned(line, 16).value;
    c, next := WireChunk(line, t[..n], t[n..n + 2]), t[n + 2..];
    LineCut(s);
    DataCut(t, n);
    JoinPieces(line + CRLF, c.data + c.after, next);
  }

  /** A stream that decodes is an encoding and what follows it. */
  lemma {:induction false} ChunksOf(s: string) returns (cs: seq<WireChunk>, last: WireChunk)
    requires Dechunk(s).Some?
    ensures ValidChunks(cs, last) && s == Encode(cs, last) + Dechunk(s).value.1 && Payload(cs) == Dechunk(s).value.0
    decreases |s|
  {
    hide ReadHead, ValidChunk, ChunkText;
    var c, next := ChunkOfHead(s);
    if c.data == "" {
      cs, last := [], c;
    } else {
      var more;
      more, last := ChunksOf(next);
      cs := [c] + more;
      assert cs[1..] == more;
      assert ChunkText(c) + (Encode(more, last) + Dechunk(next).value.1)
          == ChunkText(c) + Encode(more, last) + Dechunk(next).value.1;
    }
  }

  /** What is decoded is exactly what was encoded: the decoder accepts a stream if and only if
      it starts with chunks and a last chunk, and then returns their payload and what follows. */
  lemma {:induction false} DechunkExactly(s: string, body: string, rest: string)
    ensures Dechunk(s) == Some((body, rest)) <==>
              exists cs, last :: ValidChunks(cs, last) && s == Encode(cs, last) + rest && body == Payload(cs)
  {
    hide Dechunk, Encode, Payload, ValidChunks;
    if Dechunk(s) == Some((body, rest)) {
      var cs, last := ChunksOf(s);
    }
    forall cs, last | ValidChunks(cs, last) && s == Encode(cs, last) + rest && body == Payload(cs)
      ensures Dechunk(s) == Some((body, rest)) {
      ChunkedRoundTrip(cs, last, rest);
    }
  }

  /** Any hexadecimal numeral below 2^64 is a size line: digits in either letter case, with
      leading zeros, followed by an extension or by nothing. */
  lemma {:induction false} HexSizeLine(text: string, ds: seq<nat>, extension: string)
    requires text != "" && Writes(text, ds, 16) && Value(ds, 16) < TWO64
    requires extension == "" || extension[0] == ';'
    requires Free(extension, '\n')
    ensures SizeLine(text + extension, Value(ds, 16))
  {
    hide Spells, Value, ParseUnsigned;
    var line := text + extension;
    SemicolonIsNone();
    NumeralReads("", "", "", text, ds, extension, 16);
    assert "" + ("" + ("" + text + extension)) == line;
    FirstIsPlain(text, ds, 16);
    var b := line + "\r";
    assert forall k | 0 <= k < |b| :: b[k] != '\n';
    if Contains(b, CRLF) {
      OccursChar(b, CRLF, Find(b, CRLF), 1);
    }
  }

  lemma {:induction false} SemicolonIsNone()
    ensures forall d: nat :: !Spells(';', d)
  {
  }

  // ---- Whole messages ----

  /** A body as its sender means it: none, framed by its length, or in chunks. */
  datatype SentBody = NoBody | Plain(content: string) | Chunks(chunks: seq<WireChunk>, last: WireChunk)

  /** A message as its sender means it. */
  datatype Sent = Sent(start: Start, fields: seq<Field>, body: SentBody)

  function BodyText(body: SentBody): string {
    match body
    case NoBody => ""
    case Plain(content) => content
    case Chunks(chunks, last) => Encode(chunks, last)
  }

  function Wire(m: Sent): string {
    HeaderText(m.start, m.fields) + BodyText(m.body)
  }

  /** A message with a header of at most 10240 bytes and a body that its own fields
      announce: in chunks with size lines of at most 10240 bytes under a chunked coding, of
      the stated length below 2^32 otherwise. */
  predicate Sendable(m: Sent) {
    var fields := FieldMap(m.fields, map[]);
    && ValidStart(m.start) && ValidFields(m.fields) && |HeaderText(m.start, m.fields)| <= SEGMENT
    && Announced(fields, m.body)
  }

  predicate Announced(fields: Fields, body: SentBody) {
    if body.Chunks? then IsChunked(fields) && ValidChunks(body.chunks, body.last) && ShortLines(body.chunks, body.last)
    else
      && !IsChunked(fields)
      && if Has(fields, "Content-Length")
         then ParseUnsigned(ValueOf(fields, "Content-Length"), 10) == Some(|BodyText(body)|) && |BodyText(body)| < TWO32
         else BodyText(body) == ""
  }

  /** An empty body framed by its length is indistinguishable from none. */
  function ExpectedBody(body: SentBody): Option<string> {
    match body
    case Chunks(chunks, _) => Some(Payload(chunks))
    case _ => if BodyText(body) == "" then None else Some(BodyText(body))
  }

  function Expected(m: Sent): Received {
    Received(m.start, Touched(FieldMap(m.fields, map[])), ExpectedBody(m.body))
  }

  lemma {:induction false} BodyOfMessage(m: Sent, rest: string)
    requires Sendable(m)
    ensures var b := BodyText(m.body); var fields := FieldMap(m.fields, map[]);
            BodyOf(fields, b + rest) == Some((ExpectedBody(m.body), rest)) && BodyFits(fields, b + rest)
  {
    hide Dechunk, LinesFit, ParseUnsigned, Encode, ValidChunks, ShortLines, Lower, HeaderText, FieldMap;
    var b := BodyText(m.body);
    if m.body.Chunks? {
      ChunkedRoundTrip(m.body.chunks, m.body.last, rest);
    } else {
      assert (b + rest)[..|b|] == b && (b + rest)[|b|..] == rest;
    }
  }

  lemma {:induction false} HeaderThen(start: Start, fs: seq<Field>, tail: string)
    requires ValidStart(start) && ValidFields(fs)
    ensures var h := HeaderText(start, fs); var s := h + tail;
            && Find(s, BLANK) + 4 == |h| && s[..|h|] == h && s[|h|..] == tail
            && ParseHeader(s[..|h|]) == Header(start, FieldMap(fs, map[]))
  {
    hide ParseHeader, FieldMap, ValidStart, ValidFields;
    var h := HeaderText(start, fs);
    HeaderEnds(start, fs, tail);
    assert (h + tail)[..|h|] == h == h + "";
    HeaderRead(start, fs, "");
  }

  /** A well-formed header and any bytes behind it: the frame is the header with the body
      those bytes spell. */
  lemma {:induction false} FrameOfHeader(start: Start, fs: seq<Field>, tail: string)
    requires ValidStart(start) && ValidFields(fs)
    ensures var fields := FieldMap(fs, map[]); var s := HeaderText(start, fs) + tail;
            && Frame(s) == (match BodyOf(fields, tail)
                            case None => None
                            case Some((body, rest)) => Some((Received(start, Touched(fields), body), rest)))
            && (FrameFits(s) <==> |HeaderText(start, fs)| <= SEGMENT && BodyFits(fields, tail))
  {
    hide ParseHeader, BodyOf, BodyFits, Touched, Find;
    HeaderThen(start, fs, tail);
    var h := HeaderText(start, fs);
    var s := h + tail;
    var i := Find(s, BLANK);
    assert s[..i + 4] == s[..|h|] && s[i + 4..] == tail;
    assert ParseHeader(s[..i + 4]) == Header(start, FieldMap(fs, map[]));
  }

  lemma {:induction false} FrameOfMessage(m: Sent, rest: string)
    requires Sendable(m)
    ensures Frame(Wire(m) + rest) == Some((Expected(m), rest)) && FrameFits(Wire(m) + rest)
  {
    hide ParseHeader, BodyOf, BodyFits, Touched;
    var tail := BodyText(m.body) + rest;
    assert Wire(m) + rest == HeaderText(m.start, m.fields) + tail;
    FrameOfHeader(m.start, m.fields, tail);
    BodyOfMessage(m, rest);
  }

  function WireAll(ms: seq<Sent>): string {
    if ms == [] then "" else Wire(ms[0]) + WireAll(ms[1..])
  }

  function ExpectedAll(ms: seq<Sent>): seq<Received> {
    if ms == [] then [] else [Expected(ms[0])] + ExpectedAll(ms[1..])
  }

  /** Keep-alive framing: a byte stream made of messages is cut into exactly those
      messages, and what follows the last one is left untouched. */
  lemma {:induction false} KeepAlive(ms: seq<Sent>, rest: string)
    requires forall i | 0 <= i < |ms| :: Sendable(ms[i])
    ensures Frames(WireAll(ms) + rest, |ms|) == Some((ExpectedAll(ms), rest))
    ensures FramesFit(WireAll(ms) + rest, |ms|)
  {
    hide Frame, FrameFits, Wire;
    if ms == [] {
      assert WireAll(ms) + rest == rest;
    } else {
      var more := WireAll(ms[1..]) + rest;
      assert WireAll(ms) + rest == Wire(ms[0]) + more;
      FrameOfMessage(ms[0], more);
      KeepAlive(ms[1..], rest);
    }
  }

  /** The same, for the receiving code itself and every segmentation. */
  method ReceiveAll(ghost ms: seq<Sent>, ghost rest: string, n: nat, peer: Peer, buffer: StreamBuf)
    returns (ok: bool, messages: seq<Received>)
    requires n == |ms| && forall i | 0 <= i < n :: Sendable(ms[i])
    requires buffer.data + peer.unread == WireAll(ms) + rest
    requires NoFault(peer.plan) && Counts(|buffer.data|, buffer.data + peer.unread, n)
    modifies peer, buffer
    ensures ok && messages == ExpectedAll(ms) && Reads(peer, buffer, rest)
  {
    KeepAlive(ms, rest);
    ok, messages := ReceiveMessages(peer, buffer, n);
  }

  /** A header is found under every segmentation exactly when it ends within the horizon. */
  lemma {:induction false} HeaderFoundExactly(buffered: string, unread: string)
    ensures (forall plan | NoFault(plan) :: Contains(Filled(buffered, unread, plan, BLANK), BLANK))
       <==> (var i := Find(buffered + unread, BLANK); 0 <= i && i + 4 <= Horizon(buffered))
  {
    FilledExactly(buffered, unread, BLANK);
  }

  lemma {:induction false} FoundFromNothing(s: string)
    ensures (forall plan | NoFault(plan) :: Contains(Filled("", s, plan, BLANK), BLANK))
       <==> (var i := Find(s, BLANK); 0 <= i && i + 4 <= 10240)
  {
    var none := "";
    assert none + s == s;
    HeaderFoundExactly(none, s);
  }

  /** So a well-formed header is received under every segmentation exactly when it is at
      most 10240 bytes long. */
  lemma {:induction false} HeaderArrivesExactly(start: Start, fs: seq<Field>, tail: string)
    requires ValidStart(start) && ValidFields(fs)
    ensures (forall plan | NoFault(plan) :: Contains(Filled("", HeaderText(start, fs) + tail, plan, BLANK), BLANK))
       <==> |HeaderText(start, fs)| <= 10240
  {
    HeaderEnds(start, fs, tail);
    var s := HeaderText(start, fs) + tail;
    assert "" + s == s;
    FoundFromNothing(s);
  }
}
