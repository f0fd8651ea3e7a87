/** `http_response::serialize`, and the way of a response from one end of a connection to the other. */
module RoundTrip {
  import opened Results
  import opened Search
  import opened Numbers
  import opened Network
  import opened HttpHeader
  import opened HttpFraming
  import opened MessageText
  import opened OutgoingData

  /** What a header map is: every field stands under its own folded name. */
  predicate Keyed(headers: Fields) {
    forall k | k in headers :: Lower(headers[k].key) == k
  }

  function SpacedField(f: Field): Field {
    Field(f.key, " " + f.value)
  }

  /** The header map as it arrives: the printer puts a blank after the colon and the parser keeps it. */
  function Spaced(headers: Fields): Fields {
    map k | k in headers :: SpacedField(headers[k])
  }

  predicate ValidHeaders(headers: Fields) {
    forall k | k in headers :: ValidField(SpacedField(headers[k]))
  }

  // ---- The length of a printed header ----

  /** Bytes of all field lines, in whatever order they are printed. */
  ghost function LinesSize(headers: Fields): nat
    decreases |headers|
  {
    if headers == map[] then 0
    else
      var k :| k in headers;
      |FieldLine(SpacedField(headers[k]))| + LinesSize(headers - {k})
  }

  ghost function HeaderSize(start: Start, headers: Fields): nat {
    |StartLine(start)| + 2 + LinesSize(headers) + 2
  }

  lemma {:induction false} SizeOfOneMore(headers: Fields, k: string)
    requires k in headers
    ensures LinesSize(headers) == |FieldLine(SpacedField(headers[k]))| + LinesSize(headers - {k})
    decreases |headers|
  {
    hide FieldLine;
    var first :| first in headers
      && LinesSize(headers) == |FieldLine(SpacedField(headers[first]))| + LinesSize(headers - {first});
    if first != k {
      SizeOfOneMore(headers - {first}, k);
      SizeOfOneMore(headers - {k}, first);
      assert headers - {first} - {k} == headers - {k} - {first};
    }
  }

  lemma {:induction false} FieldMapAppend(fs: seq<Field>, f: Field, acc: Fields)
    ensures FieldMap(fs + [f], acc) == Emplace(FieldMap(fs, acc), f.key, f.value)
  {
    if fs == [] {
      assert fs + [f] == [f];
    } else {
      assert (fs + [f])[1..] == fs[1..] + [f];
      FieldMapAppend(fs[1..], f, Emplace(acc, fs[0].key, fs[0].value));
    }
  }

  lemma {:induction false} FieldLinesAppend(fs: seq<Field>, f: Field)
    ensures FieldLines(fs + [f]) == FieldLines(fs) + FieldLine(f)
  {
    if fs == [] {
      assert fs + [f] == [f];
    } else {
      assert (fs + [f])[1..] == fs[1..] + [f];
      FieldLinesAppend(fs[1..], f);
    }
  }

  /** `http_response`: `serialize` completes the header map and moves the body out. */
  class HttpResponse {
    var start: Start
    var headers: Fields
    var body: Option<StreamWrapper>

    constructor (start: Start, headers: Fields, body: Option<StreamWrapper>)
      ensures this.start == start && this.headers == headers && this.body == body
    {
      this.start, this.headers, this.body := start, headers, body;
    }

    /** `serialize_header`, whatever order the unordered map is walked in: one line per
        field of the map and no other. */
    method SerializeHeader() returns (text: string, ghost fs: seq<Field>)
      requires Keyed(headers)
      ensures text == HeaderText(start, fs) && |text| == HeaderSize(start, headers)
      ensures FieldMap(fs, map[]) == Spaced(headers) && |fs| == |headers|
      ensures ValidHeaders(headers) ==> ValidFields(fs)
    {
      hide FieldLine, FieldLines, StartLine, Printed, ValidField, Keyed;
      text, fs := StartLine(start) + CRLF, [];
      var keys := headers.Keys;
      NothingPrinted(headers);
      while keys != {}
        invariant keys <= headers.Keys && Printed(headers, keys, fs)
        invariant text == StartLine(start) + CRLF + FieldLines(fs)
        invariant ValidHeaders(headers) ==> ValidFields(fs)
        decreases keys
      {
        var k :| k in keys;
        ghost var f := SpacedField(headers[k]);
        PrintedOneMore(headers, keys, k, fs);
        text := text + PrintedLine(headers[k]);
        fs, keys := fs + [f], keys - {k};
      }
      AllPrinted(headers, fs);
      text := text + CRLF;
    }

    /** The first half of `serialize`: the completed header, printed. */
    method CompleteAndPrint() returns (printed: string, ghost fs: seq<Field>)
      requires Keyed(headers) && (body.Some? ==> body.value.Valid())
      modifies this`headers
      ensures headers == Completed(old(headers), body) && Keyed(headers) && Kept(headers, old(headers), body, "")
      ensures printed == HeaderText(start, fs) && |printed| == HeaderSize(start, headers)
      ensures FieldMap(fs, map[]) == Spaced(headers) && |fs| == |headers|
      ensures ValidHeaders(headers) ==> ValidFields(fs)
    {
      hide HeaderText, HeaderSize, FieldMap, Spaced, ValidHeaders, ValidFields, Digits, Keyed;
      CompletedKeyed(headers, body);
      CompletedKeeps(headers, body);
      if body.Some? {
        headers := Emplace(headers, "Content-Length", Digits(body.value.length, 10));
      }
      printed, fs := SerializeHeader();
    }

    /** The second half: header and body as one stream. */
    method JoinBody(printed: string) returns (result: MultiStream)
      requires body.Some? ==> body.value.Valid()
      modifies this`body
      ensures fresh(result) && result.Valid()
      ensures forall i | 0 <= i < |result.datas| :: fresh(result.datas[i]) || Some(result.datas[i]) == old(body)
      ensures body == None
      ensures result.Left() == printed + old(if body.Some? then body.value.Left() else "")
    {
      hide LeftOf;
      var header := new StreamWrapper(printed);
      result := new MultiStream();
      result.Append(header);
      assert result.Left() == "" + printed == printed;
      if body.Some? {
        result.Append(body.value);
        body := None;
      }
      assert printed + "" == printed;
    }

    /** `serialize`: afterwards the response no longer owns its body. */
    method Serialize() returns (result: MultiStream, ghost text: string, ghost fs: seq<Field>)
      requires Keyed(headers)
      requires body.Some? ==> body.value.Valid()
      modifies this
      ensures fresh(result) && result.Valid()
      ensures forall i | 0 <= i < |result.datas| :: fresh(result.datas[i]) || Some(result.datas[i]) == old(body)
      ensures start == old(start) && body == None
      ensures headers == old(Completed(headers, body)) && Keyed(headers) && Kept(headers, old(headers), old(body), "")
      ensures text == HeaderText(start, fs) && |text| == HeaderSize(start, headers)
      ensures FieldMap(fs, map[]) == Spaced(headers) && |fs| == |headers|
      ensures ValidHeaders(headers) ==> ValidFields(fs)
      ensures result.Left() == text + old(if body.Some? then body.value.Left() else "")
    {
      hide HeaderText, HeaderSize, FieldMap, Spaced, ValidHeaders, ValidFields, Completed, Keyed, LeftOf;
      var printed;
      printed, fs := CompleteAndPrint();
      text := printed;
      result := JoinBody(printed);
    }
  }

  /** `header.first << ": " << header.second << "\r\n"` */
  function PrintedLine(f: Field): string {
    f.key + ":" + (" " + f.value) + CRLF
  }

  /** `fs` are the fields of the map but for those under `keys`, one line each. */
  ghost predicate Printed(headers: Fields, keys: set<string>, fs: seq<Field>) {
    && |fs| == |headers.Keys - keys|
    && |FieldLines(fs)| == LinesSize(headers - keys)
    && FieldMap(fs, map[]) == Spaced(headers - keys)
  }

  lemma {:induction false} NothingPrinted(headers: Fields)
    ensures Printed(headers, headers.Keys, []) && FieldLines([]) == ""
  {
    assert headers - headers.Keys == map[];
  }

  lemma {:induction false} AllPrinted(headers: Fields, fs: seq<Field>)
    requires Printed(headers, {}, fs)
    ensures |fs| == |headers| && |FieldLines(fs)| == LinesSize(headers) && FieldMap(fs, map[]) == Spaced(headers)
  {
    assert headers - {} == headers && headers.Keys - {} == headers.Keys;
  }

  lemma {:induction false} LineIsPrinted(f: Field)
    ensures FieldLine(SpacedField(f)) == PrintedLine(f)
  {
    assert f.key + ":" + " " + f.value + CRLF == f.key + ":" + (" " + f.value) + CRLF;
  }

  lemma {:induction false} NewName(headers: Fields, keys: set<string>, k: string)
    requires Keyed(headers) && k in keys && k in headers
    ensures var f := SpacedField(headers[k]); var before := Spaced(headers - keys);
            Emplace(before, f.key, f.value) == before[k := f]
  {
  }

  lemma {:induction false} PrintedOneMore(headers: Fields, keys: set<string>, k: string, fs: seq<Field>)
    requires Keyed(headers) && keys <= headers.Keys && k in keys
    requires Printed(headers, keys, fs)
    ensures var f := SpacedField(headers[k]);
            FieldLines(fs + [f]) == FieldLines(fs) + PrintedLine(headers[k]) && Printed(headers, keys - {k}, fs + [f])
  {
    hide FieldLine, FieldLines, FieldMap, SpacedField, Lower, PrintedLine;
    var f, more := SpacedField(headers[k]), headers - (keys - {k});
    LineIsPrinted(headers[k]);
    FieldMapAppend(fs, f, map[]);
    FieldLinesAppend(fs, f);
    SizeOfOneMore(more, k);
    assert more - {k} == headers - keys;
    NewName(headers, keys, k);
    assert Spaced(more) == Spaced(headers - keys)[k := f];
    assert headers.Keys - (keys - {k}) == headers.Keys - keys + {k};
  }

  /** The header map `serialize` leaves behind. */
  function Completed(headers: Fields, body: Option<StreamWrapper>): Fields {
    if body.Some? then Emplace(headers, "Content-Length", Digits(body.value.length, 10)) else headers
  }

  /** `after` holds the fields of `before` in their spelling, each value behind `gap`, and
      besides them the length of a body that had no length field, under its own name. */
  predicate Kept(after: Fields, before: Fields, body: Option<StreamWrapper>, gap: string) {
    && (forall k | k in before :: k in after && after[k] == Field(before[k].key, gap + before[k].value))
    && (forall k | k in after && k !in before ::
          body.Some? && k == Lower("Content-Length")
          && after[k] == Field("Content-Length", gap + Digits(body.value.length, 10)))
    && (body.Some? ==> Has(after, "Content-Length"))
  }

  /** No field is lost or replaced, in the response or on the way. */
  lemma {:induction false} CompletedKeeps(headers: Fields, body: Option<StreamWrapper>)
    ensures Kept(Completed(headers, body), headers, body, "")
    ensures Kept(Spaced(Completed(headers, body)), headers, body, " ")
  {
    hide Lower, Digits;
    var after := Completed(headers, body);
    assert forall k | k in after :: "" + after[k].value == after[k].value;
    assert forall k | k in after :: Spaced(after)[k] == Field(after[k].key, " " + after[k].value);
  }

  lemma {:induction false} CompletedKeyed(headers: Fields, body: Option<StreamWrapper>)
    requires Keyed(headers)
    ensures Keyed(Completed(headers, body))
  {
    hide Digits, Lower;
  }

  /** The blank after the colon hides a chunked coding from `receive_body_`, which
      compares the value with "chunked" as it stands. */
  lemma {:induction false} SpacedNeverChunked(headers: Fields)
    ensures !IsChunked(Spaced(headers))
  {
    var fields := Spaced(headers);
    if Has(fields, "Transfer-Encoding") {
      var value := ValueOf(fields, "Transfer-Encoding");
      assert value[0] == ' ';
      assert Lower(value)[0] == LowerChar(' ');
      assert "chunked"[0] != LowerChar(' ');
    }
  }

  /** The length field `serialize` adds reads back as the body's length. */
  lemma {:induction false} LengthFieldReads(n: nat)
    requires n < TWO64
    ensures ParseUnsigned(" " + Digits(n, 10), 10) == Some(n)
    ensures ValidField(Field("Content-Length", " " + Digits(n, 10)))
  {
    hide Digits, ParseUnsigned;
    var d := Digits(n, 10);
    PrintThenParse(" ", n, 10, "");
    assert " " + d + "" == " " + d;
    forall i | 0 <= i < |" " + d| ensures (" " + d)[i] != '\n' && (" " + d)[i] != '\0' {
      if i > 0 {
        assert d[i - 1] in d;
        DigitsArePlain(d[i - 1], 10);
        assert Digit('\n', 10) < 0;
      }
    }
  }

  function ContentOf(body: Option<StreamWrapper>): string {
    if body.Some? then body.value.content else ""
  }

  predicate LengthAgrees(headers: Fields, n: nat) {
    Has(headers, "Content-Length") ==> ParseUnsigned(" " + ValueOf(headers, "Content-Length"), 10) == Some(n)
  }

  /** A response that can be printed: tokens and field texts that survive the wire format,
      and a header of at most 10240 bytes. */
  ghost predicate CanBePrinted(response: HttpResponse)
    reads response, if response.body.Some? then {response.body.value} else {}
  {
    && ValidStart(response.start) && Keyed(response.headers) && ValidHeaders(response.headers)
    && (response.body.Some? ==> response.body.value.Valid() && response.body.value.position == 0)
    && |ContentOf(response.body)| < TWO64
    && HeaderSize(response.start, Completed(response.headers, response.body)) <= SEGMENT
  }

  /** A response that can be sent: besides, a body below 4 GiB and no contradicting length
      field of the handler's own. */
  ghost predicate CanBeSent(response: HttpResponse)
    reads response, if response.body.Some? then {response.body.value} else {}
  {
    && CanBePrinted(response)
    && |ContentOf(response.body)| < TWO32 && LengthAgrees(response.headers, |ContentOf(response.body)|)
  }

  lemma {:induction false} CompletedValid(headers: Fields, body: Option<StreamWrapper>)
    requires ValidHeaders(headers) && |ContentOf(body)| < TWO64
    requires body.Some? ==> body.value.length == |body.value.content|
    ensures ValidHeaders(Completed(headers, body))
    ensures LengthAgrees(headers, |ContentOf(body)|) ==> LengthAgrees(Completed(headers, body), |ContentOf(body)|)
  {
    hide Digits, Lower, ParseUnsigned;
    var content, after := ContentOf(body), Completed(headers, body);
    LengthFieldReads(|content|);
    var added := Field("Content-Length", Digits(|content|, 10));
    assert SpacedField(added) == Field("Content-Length", " " + Digits(|content|, 10));
    assert forall k | k in after :: after[k] == added || (k in headers && after[k] == headers[k]);
  }

  /** The completed map announces the body: by a field that agrees, or by none if it is empty. */
  lemma {:induction false} CompletedAnnounces(headers: Fields, body: Option<StreamWrapper>)
    requires ValidHeaders(headers) && LengthAgrees(headers, |ContentOf(body)|) && |ContentOf(body)| < TWO32
    requires body.Some? ==> body.value.length == |body.value.content|
    ensures Announced(Spaced(Completed(headers, body)), Plain(ContentOf(body)))
  {
    hide Digits, Lower, ParseUnsigned, ValidHeaders;
    CompletedValid(headers, body);
    SpacedNeverChunked(Completed(headers, body));
  }

  /** A response as it is meant to arrive. */
  datatype Letter = Letter(start: Start, headers: Fields, content: string)

  ghost function LetterOf(response: HttpResponse): Letter
    reads response
  {
    Letter(response.start, Completed(response.headers, response.body), ContentOf(response.body))
  }

  /** With one blank before each value; an empty body arrives as none. */
  function Arrived(l: Letter): Received {
    Received(l.start, Spaced(l.headers), if l.content == "" then None else Some(l.content))
  }

  ghost function LetterSize(l: Letter): nat {
    HeaderSize(l.start, l.headers) + |l.content|
  }

  /** `m` is what `l` looks like on the wire: its start line, its content, and the fields of
      its header map, each once. */
  ghost predicate Carries(m: Sent, l: Letter) {
    && Sendable(m) && m.start == l.start && m.body == Plain(l.content)
    && FieldMap(m.fields, map[]) == Spaced(l.headers) && |m.fields| == |l.headers|
    && |Wire(m)| == LetterSize(l)
  }

  ghost function Footprint(response: HttpResponse): set<object>
    reads response
  {
    {response} + if response.body.Some? then {response.body.value} else {}
  }

  /** `fs` are the fields that stand on the wire for `l`, each once. */
  ghost predicate Prints(fs: seq<Field>, l: Letter) {
    && ValidFields(fs) && FieldMap(fs, map[]) == Spaced(l.headers) && |fs| == |l.headers|
    && |HeaderText(l.start, fs)| == HeaderSize(l.start, l.headers)
  }

  /** `serialize` and `write_data_`, whatever the length field says: the header, then every
      byte of the body. */
  method SendAsIs(response: HttpResponse, socket: Sink) returns (ghost fs: seq<Field>)
    requires CanBePrinted(response) && NoFault(socket.plan)
    modifies socket, Footprint(response)
    ensures response.headers == old(Completed(response.headers, response.body))
    ensures var l := old(LetterOf(response));
            socket.wire == old(socket.wire) + (HeaderText(l.start, fs) + l.content) && Prints(fs, l)
    ensures Within(socket.plan, old(socket.plan))
  {
    hide HeaderText, HeaderSize, FieldMap, Spaced, ValidHeaders, Completed;
    CompletedValid(response.headers, response.body);
    var data: MultiStream;
    ghost var text;
    data, text, fs := response.Serialize();
    var sent := WriteData(socket, data);
  }

  /** A response whose length field agrees with its body is one well-formed message. */
  method Send(response: HttpResponse, socket: Sink) returns (ghost m: Sent)
    requires CanBeSent(response) && NoFault(socket.plan)
    modifies socket, Footprint(response)
    ensures response.headers == old(Completed(response.headers, response.body))
    ensures socket.wire == old(socket.wire) + Wire(m) && Carries(m, old(LetterOf(response)))
    ensures Within(socket.plan, old(socket.plan))
  {
    hide HeaderText, HeaderSize, FieldMap, Spaced, ValidHeaders, Completed, Announced, LengthAgrees;
    ghost var l := LetterOf(response);
    CompletedAnnounces(response.headers, response.body);
    ghost var fs := SendAsIs(response, socket);
    m := Sent(l.start, fs, Plain(l.content));
  }

  /** What is received of a letter is the letter. */
  lemma {:induction false} CarriedArrives(m: Sent, l: Letter)
    requires Carries(m, l)
    ensures Expected(m) == Arrived(l)
  {
    hide Spaced, FieldMap, Sendable, Wire;
    SpacedNeverChunked(l.headers);
    PlainBody(m.body);
  }

  /** From `serialize` through `write_data_`, the network, `receive_header_` and
      `receive_body_`, under any partial writes and any segmentation: the same start line,
      the header map of the response with its length field and one blank before each
      value, and the same bytes. An empty body arrives as none. */
  method SendAndReceive(response: HttpResponse, sending: seq<Event>, receiving: seq<Event>) returns (r: Outcome)
    requires CanBeSent(response) && NoFault(sending) && NoFault(receiving)
    modifies Footprint(response)
    ensures var content := old(ContentOf(response.body));
            r == Message(Received(old(response.start), Spaced(old(Completed(response.headers, response.body))),
                                  if content == "" then None else Some(content)))
    ensures r.Message? && Kept(r.message.fields, old(response.headers), old(response.body), " ")
  {
    CompletedKeeps(response.headers, response.body);
    hide Spaced, Completed, Kept, Wire, Sendable, FieldMap, Frame, FrameFits, Expected;
    ghost var l := LetterOf(response);
    var socket := new Sink(sending);
    ghost var m := Send(response, socket);
    var peer := new Peer(socket.wire, receiving);
    var buffer := new StreamBuf();
    assert buffer.data + peer.unread == Wire(m) + "" == Wire(m);
    FrameOfMessage(m, "");
    r := ReceiveMessage(peer, buffer);
    CarriedArrives(m, l);
  }

  // ---- Length fields of the handler's own ----

  /** How a lone response arrives, and what of its body is left in front of the next message. */
  function ArrivesAs(l: Letter): (Outcome, string) {
    var fields := Spaced(l.headers);
    if !Has(fields, "Content-Length") then (Message(Received(l.start, fields, None)), l.content)
    else
      match ParseUnsigned(ValueOf(fields, "Content-Length"), 10)
      case None => (NoMessage, l.content)
      case Some(n) =>
        if n == 0 then (Message(Received(l.start, fields, None)), l.content)
        else
          var k := Min(n, |l.content|);
          (Message(Received(l.start, fields, Some(l.content[..k]))), l.content[k..])
  }

  /** The length a letter announces, if it can be read. */
  function AnnouncedLength(l: Letter): Option<nat> {
    var fields := Spaced(l.headers);
    if Has(fields, "Content-Length") then ParseUnsigned(ValueOf(fields, "Content-Length"), 10) else Some(0)
  }

  /** Any printable response that announces less than 4 GiB, whether or not the announced
      length is that of the body: `emplace` keeps a length field the handler has set. */
  method SendAndReceiveAny(response: HttpResponse, sending: seq<Event>, receiving: seq<Event>)
    returns (r: Outcome, left: string)
    requires CanBePrinted(response) && NoFault(sending) && NoFault(receiving)
    requires var n := AnnouncedLength(LetterOf(response)); n.Some? ==> n.value < TWO32
    modifies Footprint(response)
    ensures r == old(ArrivesAs(LetterOf(response))).0
    ensures r.Message? ==> left == old(ArrivesAs(LetterOf(response))).1
  {
    hide CanBePrinted, HeaderText, Frame, FrameFits, Prints, ArrivesAs, LetterOf, AnnouncedLength;
    ghost var l := LetterOf(response);
    PrintableStart(response);
    var socket := new Sink(sending);
    ghost var fs := SendAsIs(response, socket);
    var peer := new Peer(socket.wire, receiving);
    var buffer := new StreamBuf();
    ghost var s := HeaderText(l.start, fs) + l.content;
    assert "" + s == s && buffer.data + peer.unread == s;
    LetterFrame(l, fs);
    r := ReceiveMessage(peer, buffer);
    left := buffer.data + peer.unread;
  }

  lemma {:induction false} PrintableStart(response: HttpResponse)
    requires CanBePrinted(response)
    ensures ValidStart(response.start) && LetterOf(response).start == response.start
    ensures HeaderSize(LetterOf(response).start, LetterOf(response).headers) <= SEGMENT
  {
  }

  lemma {:induction false} LetterFrame(l: Letter, fs: seq<Field>)
    requires ValidStart(l.start) && Prints(fs, l) && HeaderSize(l.start, l.headers) <= SEGMENT
    requires AnnouncedLength(l).Some? ==> AnnouncedLength(l).value < TWO32
    ensures var s := HeaderText(l.start, fs) + l.content;
            && FrameFits(s) && WithoutMessage(s) == NoMessage
            && (match Frame(s)
                case None => ArrivesAs(l).0 == NoMessage
                case Some((m, rest)) => ArrivesAs(l) == (Message(m), rest))
  {
    hide HeaderText, Frame, FrameFits, FieldMap, Spaced, Dechunk, LinesFit, ParseUnsigned, Lower, ValidFields, ParseHeader;
    SpacedNeverChunked(l.headers);
    FrameOfHeader(l.start, fs, l.content);
    HeaderThen(l.start, fs, l.content);
    assert l.content[..|l.content|] == l.content;
  }

  /** It arrives as it was meant exactly when the announced length is that of the body, or
      a larger one behind which the stream ends. */
  lemma {:induction false} ArrivesIntactExactly(l: Letter)
    ensures ArrivesAs(l).0 == Message(Arrived(l))
       <==> (AnnouncedLength(l).Some? &&
             (AnnouncedLength(l).value == |l.content| || (AnnouncedLength(l).value > |l.content| && l.content != "")))
  {
    hide Spaced, ParseUnsigned, Lower;
    assert l.content[..|l.content|] == l.content;
    var n := AnnouncedLength(l);
    assert n.Some? && n.value < |l.content| ==> |l.content[..n.value]| == n.value;
  }

  /** What is left in front of the next message is the body from the announced length on;
      nothing is left exactly when all of the body was announced. */
  lemma {:induction false} LeftBehindExactly(l: Letter)
    requires AnnouncedLength(l).Some?
    ensures ArrivesAs(l).1 == l.content[Min(AnnouncedLength(l).value, |l.content|)..]
    ensures ArrivesAs(l).1 == "" <==> AnnouncedLength(l).value >= |l.content|
  {
    hide Spaced, ParseUnsigned, Lower;
    assert l.content[0..] == l.content;
  }

  // ---- Many responses over one connection ----

  ghost function LettersOf(responses: seq<HttpResponse>): (ls: seq<Letter>)
    reads responses
    ensures |ls| == |responses|
  {
    if responses == [] then [] else [LetterOf(responses[0])] + LettersOf(responses[1..])
  }

  function ArrivedAll(ls: seq<Letter>): seq<Received> {
    if ls == [] then [] else [Arrived(ls[0])] + ArrivedAll(ls[1..])
  }

  ghost function TotalSize(ls: seq<Letter>): nat {
    if ls == [] then 0 else LetterSize(ls[0]) + TotalSize(ls[1..])
  }

  /** For each letter in turn: few came before it, or less than 4 GiB are left. */
  ghost predicate LettersCount(buffered: nat, ls: seq<Letter>)
    decreases |ls|
  {
    ls != [] ==> (Grown(buffered) < TWO32 || TotalSize(ls) < TWO32) && LettersCount(Grown(buffered), ls[1..])
  }

  ghost function Bodies(responses: seq<HttpResponse>): set<StreamWrapper>
    reads responses
  {
    set i | 0 <= i < |responses| && responses[i].body.Some? :: responses[i].body.value
  }

  /** No two of the responses are the same object or own the same body. */
  ghost predicate Apart(responses: seq<HttpResponse>)
    reads responses
  {
    forall i, j | 0 <= i < j < |responses| ::
      && responses[i] != responses[j]
      && (responses[i].body.Some? ==> responses[i].body != responses[j].body)
  }

  ghost predicate AllCanBeSent(responses: seq<HttpResponse>)
    reads responses, Bodies(responses)
  {
    forall i | 0 <= i < |responses| :: CanBeSent(responses[i])
  }

  ghost predicate CarriesAll(ms: seq<Sent>, ls: seq<Letter>)
    decreases |ls|
  {
    |ms| == |ls| && (ls != [] ==> Carries(ms[0], ls[0]) && CarriesAll(ms[1..], ls[1..]))
  }

  /** What sending the first response leaves alone. */
  twostate lemma {:induction false} RestUntouched(responses: seq<HttpResponse>)
    requires responses != [] && old(Apart(responses)) && old(AllCanBeSent(responses))
    requires forall i | 1 <= i < |responses| :: unchanged(responses[i])
    requires forall b | b in old(Bodies(responses)) :: Some(b) == old(responses[0].body) || unchanged(b)
    ensures Apart(responses[1..]) && AllCanBeSent(responses[1..])
    ensures LettersOf(responses[1..]) == old(LettersOf(responses[1..])) && Bodies(responses[1..]) <= old(Bodies(responses))
  {
    hide ValidStart, ValidHeaders, Keyed, LengthAgrees, HeaderSize;
    forall i | 1 <= i < |responses|
      ensures CanBeSent(responses[i]) {
      if responses[i].body.Some? { assert old(responses[i].body.value in Bodies(responses)); }
      assert old(CanBeSent(responses[i]));
    }
    SameLetters(responses[1..]);
  }

  twostate lemma {:induction false} SameLetters(responses: seq<HttpResponse>)
    requires forall i | 0 <= i < |responses| :: unchanged(responses[i])
    ensures LettersOf(responses) == old(LettersOf(responses))
  {
    if responses != [] { SameLetters(responses[1..]); }
  }

  /** The responses of one connection, written one after the other. */
  method SendAll(responses: seq<HttpResponse>, socket: Sink) returns (ghost ms: seq<Sent>)
    requires AllCanBeSent(responses) && Apart(responses) && NoFault(socket.plan)
    modifies socket, responses, Bodies(responses)
    ensures socket.wire == old(socket.wire) + WireAll(ms) && CarriesAll(ms, old(LettersOf(responses)))
    decreases |responses|
  {
    hide CanBeSent, Carries, Wire, LetterOf;
    ms := [];
    if responses == [] {
      assert socket.wire + "" == socket.wire;
    } else {
      ghost var wire := socket.wire;
      ghost var m := Send(responses[0], socket);
      RestUntouched(responses);
      ghost var more := SendAll(responses[1..], socket);
      ms := [m] + more;
      assert ms[1..] == more;
      assert wire + Wire(m) + WireAll(more) == wire + (Wire(m) + WireAll(more));
    }
  }

  lemma {:induction false} AllCarried(ms: seq<Sent>, ls: seq<Letter>)
    requires CarriesAll(ms, ls)
    ensures ExpectedAll(ms) == ArrivedAll(ls) && |WireAll(ms)| == TotalSize(ls)
    ensures forall i | 0 <= i < |ms| :: Sendable(ms[i])
    decreases |ls|
  {
    hide Spaced, FieldMap, Sendable, Wire, Expected, Arrived, LetterSize;
    if ls != [] {
      CarriedArrives(ms[0], ls[0]);
      AllCarried(ms[1..], ls[1..]);
      assert forall i | 0 < i < |ms| :: ms[i] == ms[1..][i - 1];
    }
  }

  lemma {:induction false} AllCounted(buffered: nat, ms: seq<Sent>, ls: seq<Letter>)
    requires CarriesAll(ms, ls) && LettersCount(buffered, ls)
    ensures Counts(buffered, WireAll(ms) + "", |ms|)
    decreases |ls|
  {
    hide Frame, Sendable, Wire, LetterSize, FieldMap;
    assert WireAll(ms) + "" == WireAll(ms);
    AllCarried(ms, ls);
    if ls != [] {
      var more := WireAll(ms[1..]) + "";
      assert WireAll(ms) + "" == Wire(ms[0]) + more;
      FrameOfMessage(ms[0], more);
      AllCounted(Grown(buffered), ms[1..], ls[1..]);
    }
  }

  /** The letter of each response arrives as that response. */
  lemma {:induction false} EachArrives(responses: seq<HttpResponse>)
    ensures var messages := ArrivedAll(LettersOf(responses));
            |messages| == |responses| && forall i | 0 <= i < |responses| ::
              && messages[i].start == responses[i].start
              && Kept(messages[i].fields, responses[i].headers, responses[i].body, " ")
              && messages[i].body == var content := ContentOf(responses[i].body); if content == "" then None else Some(content)
  {
    hide Spaced, Completed, Kept;
    if responses != [] {
      CompletedKeeps(responses[0].headers, responses[0].body);
      EachArrives(responses[1..]);
      var more, messages := ArrivedAll(LettersOf(responses[1..])), ArrivedAll(LettersOf(responses));
      assert forall i | 0 < i < |responses| :: messages[i] == more[i - 1] && responses[i] == responses[1..][i - 1];
    }
  }

  /** Any number of responses over one connection arrive as those responses, in order,
      under any partial writes and any segmentation. */
  method ExchangeAll(responses: seq<HttpResponse>, sending: seq<Event>, receiving: seq<Event>)
    returns (ok: bool, messages: seq<Received>)
    requires AllCanBeSent(responses) && Apart(responses) && NoFault(sending) && NoFault(receiving)
    requires LettersCount(0, LettersOf(responses))
    modifies responses, Bodies(responses)
    ensures ok && messages == ArrivedAll(old(LettersOf(responses))) && |messages| == |responses|
    ensures forall i | 0 <= i < |responses| ::
              && messages[i].start == old(responses[i].start)
              && Kept(messages[i].fields, old(responses[i].headers), old(responses[i].body), " ")
              && messages[i].body == var content := old(ContentOf(responses[i].body)); if content == "" then None else Some(content)
  {
    EachArrives(responses);
    hide CanBeSent, Carries, Wire, LetterOf, Arrived, Expected, Sendable;
    ghost var ls := LettersOf(responses);
    var socket := new Sink(sending);
    ghost var ms := SendAll(responses, socket);
    AllCarried(ms, ls);
    AllCounted(0, ms, ls);
    var peer := new Peer(socket.wire, receiving);
    var buffer := new StreamBuf();
    assert buffer.data + peer.unread == WireAll(ms) + "";
    ok, messages := ReceiveAll(ms, "", |responses|, peer, buffer);
  }

  lemma {:induction false} PlainBody(body: SentBody)
    requires body.Plain?
    ensures ExpectedBody(body) == if body.content == "" then None else Some(body.content)
  {
  }

  // ---- Reason phrases ----

  /** A status line is accepted exactly when its reason phrase has no blank behind its
      first character that is none: the phrases of, say, 204 or 404 make the receiving side
      reject the header. Blanks in front are dropped. */
  lemma {:induction false} ReasonPhraseExactly(start: Start, fs: seq<Field>, tail: string)
    requires IsToken(start.p1) && IsToken(start.p2) && ValidFields(fs)
    requires Free(start.p3, '\n') && Free(start.p3, '\0')
    ensures var r := ParseHeader(HeaderText(start, fs) + tail); var reason := DropSpaces(start.p3);
            && (r.Header? <==> Free(reason, ' '))
            && (r.Header? ==> r == Header(Start(start.p1, start.p2, reason), FieldMap(fs, map[])))
            && (!r.Header? ==> r == Rejected)
  {
    hide Words, ParseFields, Line, AfterLine, FieldLines, FieldMap, StartLine, HeaderText;
    var h, line := HeaderText(start, fs), StartLine(start) + "\r";
    StartLineFree(start, '\n');
    HeaderTextFree(start, fs);
    CStringFree(h, tail);
    HeaderLines(start, fs, CString(tail));
    assert line[..|line| - 1] == StartLine(start);
    WordsOfStart(start);
    WordsOfOne(DropSpaces(start.p3));
    FieldsRead(fs, CString(tail), map[]);
  }

  lemma {:induction false} HeaderTextFree(start: Start, fs: seq<Field>)
    requires IsToken(start.p1) && IsToken(start.p2) && ValidFields(fs) && Free(start.p3, '\0')
    ensures Free(HeaderText(start, fs), '\0')
  {
    StartLineFree(start, '\0');
    FieldLinesFree(fs);
  }
}
