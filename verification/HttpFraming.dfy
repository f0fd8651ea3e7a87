/** `obelisk::http::core::io`, receiving side: cutting headers, fixed-length bodies
    and chunked bodies out of a growing read buffer. */
module HttpFraming {
  import opened Results
  import opened Search
  import opened Numbers
  import opened Network
  import opened HttpHeader

  // ---- What a byte stream means, with no network in sight ----

  predicate IsChunked(fields: Fields) {
    Has(fields, "Transfer-Encoding") && Lower(ValueOf(fields, "Transfer-Encoding")) == "chunked"
  }

  /** What the next chunk-size line and the bytes it announces amount to. */
  datatype Head = Malformed | Last(rest: string) | Chunk(data: string, rest: string)

  function ReadHead(s: string): (h: Head)
    ensures h.Chunk? ==> |h.rest| < |s|
  {
    var i := Find(s, CRLF);
    if i < 0 then Malformed
    else
      var t := s[i + 2..];
      match ParseUnsigned(s[..i], 16)
      case None => Malformed
      case Some(n) =>
        if |t| < n + 2 then Malformed
        else if n == 0 then Last(t[2..])
        else Chunk(t[..n], t[n + 2..])
  }

  /** Body of a chunked message at the start of `s`, and what follows it.
      `None` when the stream is malformed or too short. */
  function Dechunk(s: string): Option<(string, string)>
    decreases |s|
  {
    match ReadHead(s)
    case Malformed => None
    case Last(rest) => Some(("", rest))
    case Chunk(data, rest) => Prepend(data, Dechunk(rest))
  }

  function Prepend(out: string, r: Option<(string, string)>): Option<(string, string)> {
    match r
    case None => None
    case Some((body, rest)) => Some((out + body, rest))
  }

  /** Every chunk-size line that is read ends within the first 10240 bytes from where it starts. */
  predicate LinesFit(s: string)
    decreases |s|
  {
    && (var i := Find(s, CRLF); i >= 0 ==> i + 2 <= SEGMENT)
    && (ReadHead(s).Chunk? ==> LinesFit(ReadHead(s).rest))
  }

  /** Body at the start of `s` under the given header fields: `None` for no body at all. */
  function BodyOf(fields: Fields, s: string): Option<(Option<string>, string)> {
    if IsChunked(fields) then
      match Dechunk(s)
      case None => None
      case Some((body, rest)) => Some((Some(body), rest))
    else if !Has(fields, "Content-Length") then Some((None, s))
    else
      match ParseUnsigned(ValueOf(fields, "Content-Length"), 10)
      case None => None
      case Some(n) =>
        if n == 0 then Some((None, s)) else Some(CutAt(s, Min(n, |s|)))
  }

  function CutAt(s: string, n: nat): (Option<string>, string)
    requires n <= |s|
  {
    (Some(s[..n]), s[n..])
  }

  /** The chunked branch looks the content coding up with `operator[]`, which adds an
      empty field when there is none. */
  function Touched(fields: Fields): Fields {
    if IsChunked(fields) then Emplace(fields, "Content-Encoding", "") else fields
  }

  /** Nothing else in the map changes. */
  lemma {:induction false} TouchedExactly(fields: Fields)
    ensures Touched(fields) == fields <==> !IsChunked(fields) || Has(fields, "Content-Encoding")
    ensures var after := Touched(fields);
            && (forall k | k in fields :: k in after && after[k] == fields[k])
            && (forall k | k in after && k !in fields ::
                  k == Lower("Content-Encoding") && after[k] == Field("Content-Encoding", ""))
  {
    hide IsChunked, Lower;
  }

  /** A body is chunked exactly when the first transfer coding given is that word; letter case
      does not matter, in the name or in the value. */
  lemma {:induction false} ChunkedExactly(fs: seq<Field>)
    ensures IsChunked(FieldMap(fs, map[]))
       <==> var codings := Called(fs, "Transfer-Encoding"); codings != [] && SameName(codings[0].value, "chunked")
  {
    hide FieldMap, Called, SameName;
    var word := "chunked";
    assert forall i | 0 <= i < |word| :: LowerChar(word[i]) == word[i];
    assert Lower(word) == word;
    FieldMapExactly(fs, "Transfer-Encoding");
    var codings := Called(fs, "Transfer-Encoding");
    if codings != [] { FoldExactly(codings[0].value, word); }
  }

  /** One message: its start line, its fields as they are left, its body. */
  datatype Received = Received(start: Start, fields: Fields, body: Option<string>)

  function Frame(s: string): Option<(Received, string)> {
    var i := Find(s, BLANK);
    if i < 0 then None
    else
      match ParseHeader(s[..i + 4])
      case Header(start, fields) =>
        (match BodyOf(fields, s[i + 4..])
         case None => None
         case Some((body, rest)) => Some((Received(start, Touched(fields), body), rest)))
      case _ => None
  }

  /** The limits under which framing does not depend on how the network cuts the stream. */
  predicate FrameFits(s: string) {
    var i := Find(s, BLANK);
    i >= 0 ==>
      && i + 4 <= SEGMENT
      && match ParseHeader(s[..i + 4])
         case Header(_, fields) => BodyFits(fields, s[i + 4..])
         case _ => true
  }

  predicate BodyFits(fields: Fields, s: string) {
    if IsChunked(fields) then LinesFit(s)
    else Has(fields, "Content-Length") ==>
      var n := ParseUnsigned(ValueOf(fields, "Content-Length"), 10);
      n.Some? ==> n.value < TWO32
  }

  /** The first `n` messages. */
  function Frames(s: string, n: nat): Option<(seq<Received>, string)>
    decreases n
  {
    if n == 0 then Some(([], s))
    else
      match Frame(s)
      case None => None
      case Some((m, rest)) =>
        Append([m], Frames(rest, n - 1))
  }

  predicate FramesFit(s: string, n: nat)
    decreases n
  {
    n > 0 ==> FrameFits(s) && match Frame(s)
                              case None => true
                              case Some((_, rest)) => FramesFit(rest, n - 1)
  }

  // ---- The receiving loops ----

  ghost predicate Reads(peer: Peer, buffer: StreamBuf, s: string)
    reads peer, buffer
  {
    buffer.data + peer.unread == s
  }

  /** Consuming from the front of the buffer consumes from the front of the stream. */
  lemma {:induction false} DropFront(b: string, u: string, n: nat)
    requires n <= |b|
    ensures b[n..] + u == (b + u)[n..] && b[..n] == (b + u)[..n]
  {
  }

  lemma {:induction false} Reassemble(body: string, rest: string, n: nat)
    requires n <= |rest|
    ensures body + rest[..n] + rest[n..] == body + rest
  {
  }

  /** Nothing is buffered and the rest will come byte by byte. */
  ghost predicate Trickles(peer: Peer, buffer: StreamBuf)
    reads peer, buffer
  {
    buffer.data == "" && ByteByByte(peer.unread, peer.plan)
  }

  /** One round of the loop, as the segmentation function sees it. */
  lemma {:induction false} FilledStep(b: string, u: string, plan: seq<Event>, delimiter: string)
    ensures ReadFails(u, plan) ==> Filled(b, u, plan, delimiter) == b && b + "" == b
    ensures !ReadFails(u, plan) ==>
              var n := ReadLength(u, plan, SEGMENT); var next := b + u[..n];
              && u[..n] + u[n..] == u && n > 0
              && Filled(b, u, plan, delimiter)
                 == if |next| >= SEGMENT || Contains(next, delimiter) then next else Filled(next, u[n..], Later(plan), delimiter)
  {
    hide Contains;
  }

  /** The do-while loop of `receive_header_` and of `receive_until_(delimiter)`. */
  method FillUntil(peer: Peer, buffer: StreamBuf, delimiter: string)
    modifies peer, buffer
    ensures buffer.data == Filled(old(buffer.data), old(peer.unread), old(peer.plan), delimiter)
    ensures Reads(peer, buffer, old(buffer.data + peer.unread))
    ensures Within(peer.plan, old(peer.plan))
    ensures old(ByteByByte(peer.unread, peer.plan)) ==> ByteByByte(peer.unread, peer.plan)
  {
    hide Find, ByteByByte, Filled, ReadFails, ReadLength;
    ghost var target := Filled(buffer.data, peer.unread, peer.plan, delimiter);
    var stop := false;
    while !stop
      invariant Reads(peer, buffer, old(buffer.data + peer.unread))
      invariant Within(peer.plan, old(peer.plan))
      invariant old(ByteByByte(peer.unread, peer.plan)) ==> ByteByByte(peer.unread, peer.plan)
      invariant stop ==> buffer.data == target
      invariant !stop ==> Filled(buffer.data, peer.unread, peer.plan, delimiter) == target
      decreases !stop, |peer.unread|
    {
      if ByteByByte(peer.unread, peer.plan) { ByteStep(peer.unread, peer.plan, SEGMENT); }
      ghost var before := buffer.data;
      label round:
      var ec, data := peer.ReadSome(SEGMENT);
      JoinPieces(before, data, peer.unread);
      FilledStep(before, old@round(peer.unread), old@round(peer.plan), delimiter);
      buffer.Commit(data);
      stop := ec || |buffer.data| >= SEGMENT || Contains(buffer.data, delimiter);
    }
  }

  /** `receive_until_(delimiter)` looks at the buffer before it reads. */
  predicate LineSeen(buffered: string, unread: string, plan: seq<Event>, delimiter: string) {
    Contains(buffered, delimiter) || Contains(Filled(buffered, unread, plan, delimiter), delimiter)
  }

  /** A chunk-size line is found under every segmentation exactly when it is in the buffer
      already or ends within the horizon. */
  lemma {:induction false} LineSeenExactly(buffered: string, unread: string, delimiter: string)
    requires delimiter != ""
    ensures (forall plan | NoFault(plan) :: LineSeen(buffered, unread, plan, delimiter))
       <==> Contains(buffered, delimiter) ||
            (var i := Find(buffered + unread, delimiter); 0 <= i && i + |delimiter| <= Horizon(buffered))
  {
    FilledExactly(buffered, unread, delimiter);
    if forall plan | NoFault(plan) :: LineSeen(buffered, unread, plan, delimiter) {
      forall plan | NoFault(plan) && !Contains(buffered, delimiter)
        ensures Contains(Filled(buffered, unread, plan, delimiter), delimiter) {
        assert LineSeen(buffered, unread, plan, delimiter);
      }
    }
  }

  /** `receive_until_(delimiter)`: offset of the delimiter in the buffer. */
  method ReceiveUntil(peer: Peer, buffer: StreamBuf, delimiter: string) returns (ok: bool, pos: nat)
    requires delimiter != ""
    modifies peer, buffer
    ensures Reads(peer, buffer, old(buffer.data + peer.unread))
    ensures Within(peer.plan, old(peer.plan))
    ensures ok <==> LineSeen(old(buffer.data), old(peer.unread), old(peer.plan), delimiter)
    ensures ok ==> pos == Find(old(buffer.data + peer.unread), delimiter) && pos + |delimiter| <= |buffer.data|
    ensures ok && pos + |delimiter| <= SEGMENT ==> |buffer.data| <= Max(old(|buffer.data|), 2 * SEGMENT)
    ensures !ok && NoFault(old(peer.plan)) ==>
              var i := Find(old(buffer.data + peer.unread), delimiter); i < 0 || i + |delimiter| > Horizon(old(buffer.data))
    ensures ok && old(Trickles(peer, buffer)) ==>
              ByteByByte(peer.unread, peer.plan) && |buffer.data| == pos + |delimiter| <= SEGMENT
  {
    ghost var s := buffer.data + peer.unread;
    FindInPrefix(buffer.data, s, delimiter);
    var found := Find(buffer.data, delimiter);
    if found < 0 {
      ghost var b, u, plan := buffer.data, peer.unread, peer.plan;
      FilledBound(b, u, plan, delimiter);
      FillUntil(peer, buffer, delimiter);
      FindInPrefix(buffer.data, s, delimiter);
      if NoFault(plan) && Find(s, delimiter) >= 0 && Find(s, delimiter) + |delimiter| <= Horizon(b) {
        FilledFinds(b, u, plan, delimiter);
      }
      if b == "" && ByteByByte(u, plan) {
        FilledToTheByte(b, u, plan, delimiter);
        if Find(s, delimiter) + |delimiter| > SEGMENT { FilledMisses(b, u, plan, delimiter); }
      }
      found := Find(buffer.data, delimiter);
    }
    ok := found >= 0;
    pos := if ok then found else 0;
  }

  /** `receive_until_(size)` */
  method ReceiveSize(peer: Peer, buffer: StreamBuf, size: nat) returns (ok: bool, n: nat)
    modifies peer, buffer
    ensures Reads(peer, buffer, old(buffer.data + peer.unread))
    ensures Within(peer.plan, old(peer.plan))
    ensures ok ==> n == (if |buffer.data| < size then |buffer.data| else size)
    ensures ok && size <= SEGMENT ==> n == size && |buffer.data| <= Max(old(|buffer.data|), 2 * SEGMENT)
    ensures !ok && NoFault(old(peer.plan)) ==> old(|buffer.data + peer.unread|) < size
    ensures old(ByteByByte(peer.unread, peer.plan)) ==> ByteByByte(peer.unread, peer.plan)
    ensures ok && old(ByteByByte(peer.unread, peer.plan)) && old(|buffer.data|) <= size <= SEGMENT ==> |buffer.data| == size
  {
    if |buffer.data| >= size { return true, size; }
    while true
      invariant old(ByteByByte(peer.unread, peer.plan)) ==> ByteByByte(peer.unread, peer.plan)
      invariant Reads(peer, buffer, old(buffer.data + peer.unread))
      invariant Within(peer.plan, old(peer.plan))
      invariant |buffer.data| < size
      decreases |peer.unread|
    {
      ghost var plan := peer.plan;
      assert plan != [] ==> plan[0] in plan;
      if ByteByByte(peer.unread, plan) { ByteStep(peer.unread, plan, SEGMENT); }
      var ec, data := peer.ReadSome(SEGMENT);
      buffer.Commit(data);
      if ec { return false, 0; }
      if |buffer.data| >= (if size < SEGMENT then size else SEGMENT) { break; }
    }
    ok, n := true, if |buffer.data| < size then |buffer.data| else size;
  }

  /** One round of the inner loop of `receive_chunked_body_`: at most 10240 bytes. */
  method ReceivePiece(peer: Peer, buffer: StreamBuf, remaining: nat) returns (ok: bool, piece: string)
    requires remaining > 0
    modifies peer, buffer
    ensures Within(peer.plan, old(peer.plan))
    ensures old(buffer.data + peer.unread) == piece + (buffer.data + peer.unread)
    ensures |piece| == if ok then Min(remaining, SEGMENT) else 0
    ensures !ok && NoFault(old(peer.plan)) ==> old(|buffer.data + peer.unread|) < remaining
    ensures ok ==> |buffer.data| <= Max(old(|buffer.data|), 2 * SEGMENT)
    ensures ok && old(Trickles(peer, buffer)) ==> Trickles(peer, buffer)
  {
    ghost var s := buffer.data + peer.unread;
    piece := "";
    var received;
    ok, received := ReceiveSize(peer, buffer, Min(remaining, SEGMENT));
    if !ok { return; }
    Reassemble("", s, received);
    DropFront(buffer.data, peer.unread, received);
    piece := buffer.data[..received];
    buffer.Consume(received);
  }

  /** The inner loop of `receive_chunked_body_`: one chunk's data. */
  method ReceiveChunkData(peer: Peer, buffer: StreamBuf, length: nat) returns (ok: bool, out: string)
    requires length > 0
    modifies peer, buffer
    ensures Within(peer.plan, old(peer.plan))
    ensures ok ==> length <= old(|buffer.data + peer.unread|) && out == old(buffer.data + peer.unread)[..length]
    ensures ok ==> Reads(peer, buffer, old(buffer.data + peer.unread)[length..])
    ensures !ok && NoFault(old(peer.plan)) ==> old(|buffer.data + peer.unread|) < length
    ensures ok ==> |buffer.data| <= Max(old(|buffer.data|), 2 * SEGMENT)
    ensures ok && old(Trickles(peer, buffer)) ==> Trickles(peer, buffer)
  {
    ghost var s := buffer.data + peer.unread;
    out := "";
    var remaining := length;
    while true
      invariant Within(peer.plan, old(peer.plan))
      invariant 0 < remaining && |out| + remaining == length
      invariant out + (buffer.data + peer.unread) == s
      invariant old(Trickles(peer, buffer)) ==> Trickles(peer, buffer)
      invariant |buffer.data| <= Max(old(|buffer.data|), 2 * SEGMENT)
      decreases remaining
    {
      ghost var before := out;
      var good, piece := ReceivePiece(peer, buffer, remaining);
      JoinPieces(before, piece, buffer.data + peer.unread);
      if !good { return false, out; }
      remaining, out := remaining - |piece|, out + piece;
      if remaining == 0 { break; }
    }
    ok := true;
    FrontAndRest(out, buffer.data + peer.unread);
  }

  lemma {:induction false} FrontAndRest(a: string, b: string)
    ensures (a + b)[..|a|] == a && (a + b)[|a|..] == b
  {
  }

  lemma {:induction false} PrependTwice(a: string, b: string, r: Option<(string, string)>)
    ensures Prepend(a, Prepend(b, r)) == Prepend(a + b, r)
  {
    if r.Some? {
      assert a + (b + r.value.0) == a + b + r.value.0;
    }
  }

  lemma {:induction false} PrependNothing(r: Option<(string, string)>)
    ensures Prepend("", r) == r
  {
    if r.Some? {
      assert "" + r.value.0 == r.value.0;
    }
  }

  /** A chunk-size line: `None` stands for the exceptions of `receive_until_` and `stoull`. */
  method ReceiveChunkSize(peer: Peer, buffer: StreamBuf) returns (length: Option<nat>)
    modifies peer, buffer
    ensures Within(peer.plan, old(peer.plan))
    ensures length.Some? ==>
              var s := old(buffer.data + peer.unread); var i := Find(s, CRLF);
              && i >= 0 && length == ParseUnsigned(s[..i], 16) && Reads(peer, buffer, s[i + 2..])
              && (i + 2 <= SEGMENT ==> |buffer.data| <= Max(old(|buffer.data|), 2 * SEGMENT))
    ensures length.None? && NoFault(old(peer.plan)) ==>
              var s := old(buffer.data + peer.unread); var i := Find(s, CRLF);
              i < 0 || i + 2 > SEGMENT || ParseUnsigned(s[..i], 16).None?
    ensures length.Some? && old(Trickles(peer, buffer)) ==>
              Trickles(peer, buffer) && Find(old(buffer.data + peer.unread), CRLF) + 2 <= SEGMENT
  {
    hide ParseUnsigned, LineSeen;
    ghost var s := buffer.data + peer.unread;
    var ok, sizePos := ReceiveUntil(peer, buffer, CRLF);
    if !ok { return None; }
    assert buffer.data[..sizePos] == s[..sizePos];
    length := ParseUnsigned(buffer.data[..sizePos], 16);
    buffer.Consume(sizePos + 2);
    assert Reads(peer, buffer, s[sizePos + 2..]);
  }

  /** The two bytes after chunk data; their values are not looked at. */
  method SkipTwo(peer: Peer, buffer: StreamBuf) returns (ok: bool)
    modifies peer, buffer
    ensures Within(peer.plan, old(peer.plan))
    ensures ok ==> old(|buffer.data + peer.unread|) >= 2 && Reads(peer, buffer, old(buffer.data + peer.unread)[2..])
    ensures !ok && NoFault(old(peer.plan)) ==> old(|buffer.data + peer.unread|) < 2
    ensures ok ==> |buffer.data| <= Max(old(|buffer.data|), 2 * SEGMENT)
    ensures ok && old(Trickles(peer, buffer)) ==> Trickles(peer, buffer)
  {
    ghost var s := buffer.data + peer.unread;
    var got;
    ok, got := ReceiveSize(peer, buffer, 2);
    if !ok { return; }
    buffer.Consume(2);
    assert Reads(peer, buffer, s[2..]);
  }

  /** One round of the outer loop of `receive_chunked_body_`: a size line, the data it
      announces, and the two bytes after the data. */
  method ReceiveChunk(peer: Peer, buffer: StreamBuf) returns (ok: bool, last: bool, data: string)
    modifies peer, buffer
    ensures Within(peer.plan, old(peer.plan))
    ensures ok ==> ReadHead(old(buffer.data + peer.unread))
                   == if last then Last(buffer.data + peer.unread) else Chunk(data, buffer.data + peer.unread)
    ensures !ok && NoFault(old(peer.plan)) && LinesFit(old(buffer.data + peer.unread)) ==>
              ReadHead(old(buffer.data + peer.unread)).Malformed?
    ensures ok && LinesFit(old(buffer.data + peer.unread)) ==> |buffer.data| <= Max(old(|buffer.data|), 2 * SEGMENT)
    ensures ok && old(Trickles(peer, buffer)) ==>
              Trickles(peer, buffer) && Find(old(buffer.data + peer.unread), CRLF) + 2 <= SEGMENT
  {
    hide ParseUnsigned, ByteByByte;
    ghost var s := buffer.data + peer.unread;
    ok, last, data := false, true, "";
    var length := ReceiveChunkSize(peer, buffer);
    if length.None? { return; }
    var n := length.value;
    ghost var t := buffer.data + peer.unread;
    last := n == 0;
    if !last {
      ok, data := ReceiveChunkData(peer, buffer, n);
      if !ok { return; }
    }
    ok := SkipTwo(peer, buffer);
    if |t| >= n + 2 {
      assert t[n..][2..] == t[n + 2..];
    }
  }

  /** `receive_chunked_body_`; the result is what is written to the output stream. Whether it
      is decoded does not depend on the segmentation exactly when `LinesFit`: then every
      segmentation without faults will do, and otherwise one byte at a time fails. */
  method ReceiveChunked(peer: Peer, buffer: StreamBuf) returns (r: Result<string>)
    modifies peer, buffer
    ensures Within(peer.plan, old(peer.plan))
    ensures r.Ok? ==> Dechunk(old(buffer.data + peer.unread)) == Some((r.value, buffer.data + peer.unread))
    ensures r.Err? && NoFault(old(peer.plan)) && LinesFit(old(buffer.data + peer.unread)) ==>
              Dechunk(old(buffer.data + peer.unread)).None?
    ensures r.Ok? && LinesFit(old(buffer.data + peer.unread)) ==> |buffer.data| <= Max(old(|buffer.data|), 2 * SEGMENT)
    ensures old(Trickles(peer, buffer)) && !LinesFit(old(buffer.data + peer.unread)) ==> r.Err?
  {
    hide ByteByByte, ReadHead;
    var out := "";
    ghost var whole, fits := Dechunk(buffer.data + peer.unread), LinesFit(buffer.data + peer.unread);
    PrependNothing(whole);
    while true
      invariant Within(peer.plan, old(peer.plan))
      invariant fits ==> LinesFit(buffer.data + peer.unread) && |buffer.data| <= Max(old(|buffer.data|), 2 * SEGMENT)
      invariant whole == Prepend(out, Dechunk(buffer.data + peer.unread))
      invariant old(Trickles(peer, buffer)) ==> Trickles(peer, buffer) && (LinesFit(buffer.data + peer.unread) ==> fits)
      decreases |buffer.data + peer.unread|
    {
      var ok, last, data := ReceiveChunk(peer, buffer);
      if !ok { return Err; }
      if last {
        assert out + "" == out;
        return Ok(out);
      }
      PrependTwice(out, data, Dechunk(buffer.data + peer.unread));
      out := out + data;
    }
  }

  lemma {:induction false} HeaderMemory(b: string, s: string, beyond: string)
    requires b <= s && Contains(b, BLANK)
    ensures Find(b, BLANK) == Find(s, BLANK)
    ensures ParseHeader(b + beyond) == ParseHeader(s[..Find(s, BLANK) + 4])
  {
    FindInPrefix(b, s, BLANK);
    var end := Find(s, BLANK) + 4;
    var h := s[..end];
    assert b + beyond == h + (b[end..] + beyond);
    assert h[end - 4..] == BLANK;
    TailIgnored(h, b[end..] + beyond);
  }

  /** `receive_header_`. The parser is handed the address of the buffer, so it also
      sees whatever memory follows; that is `beyond`. */
  method ReceiveHeader(peer: Peer, buffer: StreamBuf) returns (r: Parsed)
    modifies peer, buffer
    ensures Within(peer.plan, old(peer.plan))
    ensures var s := old(buffer.data + peer.unread); var i := Find(s, BLANK);
            if r.Header? then i >= 0 && r == ParseHeader(s[..i + 4]) && Reads(peer, buffer, s[i + 4..])
            else Reads(peer, buffer, s)
    ensures var s := old(buffer.data + peer.unread); var i := Find(s, BLANK);
            NoFault(old(peer.plan)) && 0 <= i && i + 4 <= Horizon(old(buffer.data)) ==> r == ParseHeader(s[..i + 4])
    ensures |buffer.data| <= Max(old(|buffer.data|), SEGMENT) + SEGMENT
    ensures var s := old(buffer.data + peer.unread);
            if Contains(Filled(old(buffer.data), old(peer.unread), old(peer.plan), BLANK), BLANK)
            then Find(s, BLANK) >= 0 && r == ParseHeader(s[..Find(s, BLANK) + 4])
            else r == Rejected
  {
    hide ParseHeader, Filled;
    ghost var s := buffer.data + peer.unread;
    ghost var b, u, plan := buffer.data, peer.unread, peer.plan;
    FillUntil(peer, buffer, BLANK);
    FindInPrefix(buffer.data, s, BLANK);
    FilledBound(b, u, plan, BLANK);
    if NoFault(plan) && 0 <= Find(s, BLANK) && Find(s, BLANK) + 4 <= Horizon(b) {
      FilledFinds(b, u, plan, BLANK);
    }
    if !Contains(buffer.data, BLANK) { return Rejected; }
    var end := Find(buffer.data, BLANK) + 4;
    var beyond: string :| true;
    HeaderMemory(buffer.data, s, beyond);
    r := ReadHeader(buffer.data + beyond);
    if r.Header? {
      DropFront(buffer.data, peer.unread, end);
      buffer.Consume(end);
    }
  }

  /** One round of the loop of `receive_body_`: as many bytes as `async_read` added to the
      buffer are taken from its front. */
  method Transfer(peer: Peer, buffer: StreamBuf, wanted: nat) returns (ec: bool, piece: string)
    modifies peer, buffer
    ensures Within(peer.plan, old(peer.plan))
    ensures old(buffer.data + peer.unread) == piece + (buffer.data + peer.unread)
    ensures |piece| <= wanted && |piece| + |peer.unread| == old(|peer.unread|)
    ensures !ec ==> |piece| == wanted
    ensures ec ==> |piece| < wanted && ReadFailure(old(peer.plan), peer.unread)
  {
    ghost var s := buffer.data + peer.unread;
    var data;
    ec, data := peer.ReadFull(wanted);
    buffer.Commit(data);
    assert s == buffer.data + peer.unread;
    DropFront(buffer.data, peer.unread, |data|);
    Reassemble("", s, |data|);
    piece := buffer.data[..|data|];
    buffer.Consume(|data|);
  }

  lemma {:induction false} JoinPieces(a: string, b: string, c: string)
    ensures a + b + c == a + (b + c)
  {
  }

  /** The fixed-length branch of `receive_body_`, with its 32-bit counter. When the
      length to read next truncates to zero the C++ loop repeats for ever; the model
      stops there and says so. */
  method ReceiveFixed(peer: Peer, buffer: StreamBuf, length: nat) returns (spins: bool, body: string)
    requires 0 < length < TWO64
    modifies peer, buffer
    ensures Within(peer.plan, old(peer.plan))
    ensures body + (buffer.data + peer.unread) == old(buffer.data + peer.unread)
    ensures |body| <= length % TWO32
    ensures spins ==> length >= TWO32 && |body| == length % TWO32
    ensures !spins ==> (length < TWO32 && |body| == length) || ReadFailure(old(peer.plan), peer.unread)
    ensures NoFault(old(peer.plan)) ==>
              var n := Delivered(length, old(|buffer.data|), old(|peer.unread|));
              |body| == n && (spins <==> length >= TWO32 && n == length % TWO32)
    ensures |buffer.data| <= old(|buffer.data|)
  {
    ghost var s := buffer.data + peer.unread;
    var total := 0;
    body := "";
    Start32(|buffer.data|, length);
    if |buffer.data| > 0 {
      total := Min32(|buffer.data|, length);
      DropFront(buffer.data, peer.unread, total);
      Reassemble("", s, total);
      body := buffer.data[..total];
      buffer.Consume(total);
    }
    while total < length
      invariant total == |body| <= length % TWO32
      invariant body + (buffer.data + peer.unread) == s
      invariant Within(peer.plan, old(peer.plan))
      invariant total < length % TWO32 ==> total + |peer.unread| == old(|buffer.data|) % TWO32 + old(|peer.unread|)
      invariant total == length % TWO32 ==> total + |peer.unread| <= old(|buffer.data|) % TWO32 + old(|peer.unread|)
      invariant |buffer.data| <= old(|buffer.data|)
      decreases length - total
    {
      var wanted := Min32(length - total, SEGMENT);
      Wanted32(length, total);
      if wanted == 0 { return true, body; }
      ghost var before := body;
      var ec, piece := Transfer(peer, buffer, wanted);
      total, body := total + |piece|, body + piece;
      JoinPieces(before, piece, buffer.data + peer.unread);
      if ec { break; }
    }
    spins := false;
  }

  /** How many bytes of a body of `length` arrive when no read fails: the counter is
      32 bits wide and starts with what is left of the buffer's size modulo 2^32. */
  function Delivered(length: nat, buffered: nat, unread: nat): (n: nat)
    ensures n <= buffered + unread
  {
    Min(length % TWO32, buffered % TWO32 + unread)
  }

  /** The bytes delivered are those the stream holds for the body exactly when
      - the buffer is below 2^32 bytes, and the length is too or the stream ends before
        the counter wraps; or
      - the length is below 2^32, and the wrapped start and the unread bytes cover it. */
  lemma {:induction false} DeliveredExactly(length: nat, buffered: nat, unread: nat)
    ensures Delivered(length, buffered, unread) == Min(length, buffered + unread) <==>
              if buffered < TWO32 then length < TWO32 || buffered + unread <= length % TWO32
              else length < TWO32 && length <= buffered % TWO32 + unread
  {
  }

  /** `std::min<uint32_t>(a, b)` */
  function Min32(a: nat, b: nat): nat {
    if a % TWO32 < b % TWO32 then a % TWO32 else b % TWO32
  }

  lemma {:induction false} Wanted32(length: nat, total: nat)
    requires total <= length % TWO32
    ensures total <= length
    ensures Min32(length - total, SEGMENT) == Min(length % TWO32 - total, SEGMENT)
  {
    var q, r := length / TWO32, length % TWO32 - total;
    assert length - total == q * TWO32 + r && 0 <= r < TWO32;
    assert (q * TWO32 + r) % TWO32 == r;
  }

  lemma {:induction false} Start32(size: nat, length: nat)
    ensures Min32(size, length) <= size && Min32(size, length) <= length % TWO32
    ensures size < TWO32 ==> Min32(size, length) == Min(size, length % TWO32)
  {
  }

  /** `Spins` is a call that never returns. */
  datatype BodyOutcome = Got(body: Option<string>) | Threw | Spins

  /** What `receive_body_` returns and leaves when no read fails, whatever the sizes. */
  function BodyAt(fields: Fields, buffered: string, unread: string): (BodyOutcome, string) {
    var s := buffered + unread;
    if IsChunked(fields) then
      match Dechunk(s)
      case None => (Threw, "")
      case Some((body, rest)) => (Got(Some(body)), rest)
    else if !Has(fields, "Content-Length") then (Got(None), s)
    else
      match ParseUnsigned(ValueOf(fields, "Content-Length"), 10)
      case None => (Threw, "")
      case Some(length) => if length == 0 then (Got(None), s) else FixedAt(length, buffered, unread)
  }

  function FixedAt(length: nat, buffered: string, unread: string): (BodyOutcome, string) {
    var n := Delivered(length, |buffered|, |unread|);
    var (body, rest) := CutAt(buffered + unread, n);
    (if SpinsAfter(length, n) then Spins else Got(body), rest)
  }

  predicate SpinsAfter(length: nat, n: nat) {
    length >= TWO32 && n == length % TWO32
  }

  /** The length, if one is read, is delivered in full or as far as the stream goes, and
      the loop ends. */
  predicate Complete(fields: Fields, buffered: nat, unread: nat) {
    Has(fields, "Content-Length") ==>
      var length := ParseUnsigned(ValueOf(fields, "Content-Length"), 10);
      length.Some? && length.value > 0 ==>
        var n := Delivered(length.value, buffered, unread);
        n == Min(length.value, buffered + unread) && !SpinsAfter(length.value, n)
  }

  predicate AsSpelled(got: (BodyOutcome, string), spelled: Option<(Option<string>, string)>) {
    match spelled
    case None => got.0.Threw?
    case Some((body, rest)) => got == (Got(body), rest)
  }

  lemma {:induction false} CutsDiffer(s: string, m: nat, n: nat)
    requires m <= |s| && n <= |s|
    ensures CutAt(s, m) == CutAt(s, n) <==> m == n
  {
    assert |s[m..]| == |s| - m && |s[n..]| == |s| - n;
  }

  /** `receive_body_` returns what the stream spells exactly when the body is chunked or
      `Complete`. */
  lemma {:induction false} BodyAtExactly(fields: Fields, buffered: string, unread: string)
    ensures AsSpelled(BodyAt(fields, buffered, unread), BodyOf(fields, buffered + unread))
       <==> IsChunked(fields) || Complete(fields, |buffered|, |unread|)
  {
    hide Dechunk, Lower, ParseUnsigned, CutAt, Delivered, SpinsAfter;
    if !IsChunked(fields) && Has(fields, "Content-Length") {
      var length := ParseUnsigned(ValueOf(fields, "Content-Length"), 10);
      if length.Some? && length.value > 0 {
        var s := buffered + unread;
        CutsDiffer(s, Delivered(length.value, |buffered|, |unread|), Min(length.value, |s|));
        CutIsSome(s, Min(length.value, |s|));
        CutIsSome(s, Delivered(length.value, |buffered|, |unread|));
      }
    }
  }

  lemma {:induction false} CutIsSome(s: string, n: nat)
    requires n <= |s|
    ensures CutAt(s, n).0.Some?
    ensures CutAt(s, n) == (CutAt(s, n).0, CutAt(s, n).1)
  {
  }

  /** A body of the announced length is received exactly when that length is below 2^32 and
      the stream, counted from the wrapped start, holds it. A shorter body is returned all
      the same. */
  lemma {:induction false} AnnouncedExactly(fields: Fields, buffered: string, unread: string, length: nat)
    requires !IsChunked(fields) && Has(fields, "Content-Length")
    requires ParseUnsigned(ValueOf(fields, "Content-Length"), 10) == Some(length) && length > 0
    ensures (var got := BodyAt(fields, buffered, unread).0; got.Got? && got.body.Some? && |got.body.value| == length)
       <==> length < TWO32 && length <= |buffered| % TWO32 + |unread|
    ensures BodyAt(fields, buffered, unread).0.Got? ==> BodyAt(fields, buffered, unread).0.body.Some?
  {
    hide ParseUnsigned, Lower, IsChunked;
  }

  /** Below 4 GiB everything is complete. */
  lemma {:induction false} BodyAtSmall(fields: Fields, buffered: string, unread: string)
    requires BodyFits(fields, buffered + unread) && |buffered| < TWO32
    ensures AsSpelled(BodyAt(fields, buffered, unread), BodyOf(fields, buffered + unread))
  {
    hide LinesFit, Lower, ParseUnsigned, BodyAt, BodyOf, AsSpelled;
    BodyAtExactly(fields, buffered, unread);
  }

  /** `receive_body_` (without gzip). Under faults the bytes are still conserved, and a
      fixed-length body is cut short only by a fault or the end of the stream. */
  method ReceiveBody(peer: Peer, buffer: StreamBuf, fields: Fields) returns (r: BodyOutcome)
    modifies peer, buffer
    ensures Within(peer.plan, old(peer.plan))
    ensures var s := old(buffer.data + peer.unread);
            NoFault(old(peer.plan)) && (IsChunked(fields) ==> LinesFit(s)) ==>
              var (outcome, rest) := BodyAt(fields, old(buffer.data), old(peer.unread));
              r == outcome && (!r.Threw? ==> Reads(peer, buffer, rest))
              && (r.Got? ==> |buffer.data| <= Max(old(|buffer.data|), 2 * SEGMENT))
    ensures r.Got? && IsChunked(fields) ==>
              r.body.Some? && Dechunk(old(buffer.data + peer.unread)) == Some((r.body.value, buffer.data + peer.unread))
    ensures r.Got? && !IsChunked(fields) ==>
              var body := if r.body.Some? then r.body.value else "";
              && body + (buffer.data + peer.unread) == old(buffer.data + peer.unread)
              && (r.body.Some? ==> Has(fields, "Content-Length")
                                   && (ParseUnsigned(ValueOf(fields, "Content-Length"), 10) == Some(|body|)
                                       || ReadFailure(old(peer.plan), peer.unread)))
  {
    hide Dechunk, LinesFit, Lower, ParseUnsigned;
    ghost var s := buffer.data + peer.unread;
    if IsChunked(fields) {
      var chunked := ReceiveChunked(peer, buffer);
      return if chunked.Ok? then Got(Some(chunked.value)) else Threw;
    }
    if !Has(fields, "Content-Length") { return Got(None); }
    var length := ParseUnsigned(ValueOf(fields, "Content-Length"), 10);
    if length.None? { return Threw; }
    if length.value == 0 { return Got(None); }
    var spins, body := ReceiveFixed(peer, buffer, length.value);
    ghost var rest := buffer.data + peer.unread;
    assert body == s[..|body|] && rest == s[|body|..];
    r := if spins then Spins else Got(Some(body));
  }

  /** `Unspecified`: the header parser met its undefined case. */
  datatype Outcome = Message(message: Received) | NoMessage | Unspecified

  /** The outcome of a round that yields no message. */
  function WithoutMessage(s: string): Outcome {
    var i := Find(s, BLANK);
    if i >= 0 && ParseHeader(s[..i + 4]).Undefined? then Unspecified else NoMessage
  }

  /** What the buffer can hold after one more message: a header read adds at most one
      segment to the larger of the buffer and the limit. */
  function Grown(buffered: nat): nat {
    Max(buffered, SEGMENT) + SEGMENT
  }

  /** The buffered bytes cannot reach 2^32 while a message is received: either the buffer
      has room for what a message can add, or what is left of the stream is shorter. */
  predicate CounterHolds(buffered: nat, s: string) {
    Grown(buffered) < TWO32 || |s| < TWO32
  }

  /** The same for each of the next `n` messages in turn. */
  predicate Counts(buffered: nat, s: string, n: nat)
    decreases n
  {
    n > 0 ==> CounterHolds(buffered, s) && match Frame(s)
                                           case None => true
                                           case Some((_, rest)) => Counts(Grown(buffered), rest, n - 1)
  }

  lemma {:induction false} CountsLess(fewer: nat, buffered: nat, s: string, n: nat)
    requires fewer <= buffered && Counts(buffered, s, n)
    ensures Counts(fewer, s, n)
    decreases n
  {
    hide Frame;
    if n > 0 && Frame(s).Some? { CountsLess(Grown(fewer), Grown(buffered), Frame(s).value.1, n - 1); }
  }

  /** Once less than 4 GiB of the stream is left, any number of messages may follow. */
  lemma {:induction false} CountsShort(buffered: nat, s: string, n: nat)
    requires |s| < TWO32
    ensures Counts(buffered, s, n)
    decreases n
  {
    hide Frame;
    FrameShortens(s);
    if n > 0 && Frame(s).Some? { CountsShort(Grown(buffered), Frame(s).value.1, n - 1); }
  }

  /** And so may 419,429 messages of any size, from an empty buffer. */
  lemma {:induction false} CountsFew(buffered: nat, s: string, n: nat)
    requires Max(buffered, SEGMENT) + 10240 * n < TWO32
    ensures Counts(buffered, s, n)
    decreases n
  {
    hide Frame;
    if n > 0 && Frame(s).Some? { CountsFew(Grown(buffered), Frame(s).value.1, n - 1); }
  }

  /** A complete header block that the parser refuses. */
  predicate Refused(s: string) {
    var i := Find(s, BLANK);
    i >= 0 && ParseHeader(s[..i + 4]).Rejected?
  }

  /** As a refused block is not consumed, the session loop meets it again in every later
      round, with or without faults, and never gets to another message, for as many rounds
      as the loop goes on: it ends only when a response cannot be written. */
  method RefusedForever(peer: Peer, buffer: StreamBuf, rounds: nat) returns (outcomes: seq<Outcome>)
    requires Refused(buffer.data + peer.unread)
    modifies peer, buffer
    ensures |outcomes| == rounds && (forall i | 0 <= i < rounds :: outcomes[i] == NoMessage)
    ensures Reads(peer, buffer, old(buffer.data + peer.unread))
  {
    hide ParseHeader, Filled;
    outcomes := [];
    for i := 0 to rounds
      invariant |outcomes| == i && forall j | 0 <= j < i :: outcomes[j] == NoMessage
      invariant Reads(peer, buffer, old(buffer.data + peer.unread))
    {
      var r := ReceiveMessage(peer, buffer);
      outcomes := outcomes + [r];
    }
  }

  /** One round of the server's session loop: a header, then its body. */
  method ReceiveMessage(peer: Peer, buffer: StreamBuf) returns (r: Outcome)
    modifies peer, buffer
    ensures Within(peer.plan, old(peer.plan))
    ensures NoFault(old(peer.plan)) && FrameFits(old(buffer.data + peer.unread))
            && CounterHolds(old(|buffer.data|), old(buffer.data + peer.unread)) ==>
              && (match Frame(old(buffer.data + peer.unread))
                  case None => r == WithoutMessage(old(buffer.data + peer.unread))
                  case Some((message, rest)) => r == Message(message) && Reads(peer, buffer, rest))
              && (r.Message? ==> |buffer.data| <= Grown(old(|buffer.data|)))
    ensures Refused(old(buffer.data + peer.unread)) ==>
              r == NoMessage && Reads(peer, buffer, old(buffer.data + peer.unread))
  {
    hide ParseHeader, BodyOf, BodyAt, Touched, Filled, IsChunked, LinesFit;
    ghost var s := buffer.data + peer.unread;
    ghost var holds := CounterHolds(|buffer.data|, s);
    var header := ReceiveHeader(peer, buffer);
    if header.Undefined? { return Unspecified; }
    if header.Rejected? { return NoMessage; }
    ghost var b, u := buffer.data, peer.unread;
    if FrameFits(s) && holds { BodyAtSmall(header.fields, b, u); }
    var body := ReceiveBody(peer, buffer, header.fields);
    r := if body.Got? then Message(Received(header.start, Touched(header.fields), body.body)) else NoMessage;
  }

  /** No read fails, the next `n` messages fit, and the buffered bytes stay below what the
      32-bit counter can count. */
  predicate Ready(b: string, u: string, plan: seq<Event>, n: nat) {
    NoFault(plan) && FramesFit(b + u, n) && Counts(|b|, b + u, n)
  }

  lemma {:induction false} DechunkShortens(s: string)
    ensures Dechunk(s).Some? ==> |Dechunk(s).value.1| <= |s|
    decreases |s|
  {
    hide ParseUnsigned;
    if ReadHead(s).Chunk? { DechunkShortens(ReadHead(s).rest); }
  }

  lemma {:induction false} FrameShortens(s: string)
    ensures Frame(s).Some? ==> |Frame(s).value.1| <= |s|
  {
    hide ParseHeader, BodyOf, Touched;
    var i := Find(s, BLANK);
    if i >= 0 {
      var h := ParseHeader(s[..i + 4]);
      if h.Header? { BodyShortens(h.fields, s[i + 4..]); }
    }
  }

  lemma {:induction false} BodyShortens(fields: Fields, s: string)
    ensures BodyOf(fields, s).Some? ==> |BodyOf(fields, s).value.1| <= |s|
  {
    hide Dechunk, Lower, ParseUnsigned;
    DechunkShortens(s);
  }

  lemma {:induction false} RoundStep(b: string, u: string, plan: seq<Event>, b': string, u': string, plan': seq<Event>, n: nat, m: Received)
    requires n > 0 && Ready(b, u, plan, n)
    requires Frame(b + u) == Some((m, b' + u')) && Within(plan', plan) && |b'| <= Grown(|b|)
    ensures Ready(b', u', plan', n - 1)
    ensures Frames(b + u, n) == Append([m], Frames(b' + u', n - 1))
  {
    hide Frame, FrameFits;
    CountsLess(|b'|, Grown(|b|), b' + u', n - 1);
  }

  /** `n` rounds of the session loop. Whatever the segmentation, the messages are the
      ones the byte stream spells, and the unread remainder is exactly what follows them. */
  method ReceiveMessages(peer: Peer, buffer: StreamBuf, n: nat) returns (ok: bool, messages: seq<Received>)
    modifies peer, buffer
    ensures old(Ready(buffer.data, peer.unread, peer.plan, n)) ==>
              match Frames(old(buffer.data + peer.unread), n)
              case None => !ok
              case Some((expected, rest)) => ok && messages == expected && Reads(peer, buffer, rest)
  {
    hide Frame, FrameFits;
    ghost var whole := Frames(buffer.data + peer.unread, n);
    ghost var ready := Ready(buffer.data, peer.unread, peer.plan, n);
    messages := [];
    var left := n;
    AppendNothing(whole);
    while left > 0
      invariant 0 <= left <= n
      invariant ready ==> Ready(buffer.data, peer.unread, peer.plan, left)
      invariant ready ==> whole == Append(messages, Frames(buffer.data + peer.unread, left))
    {
      ghost var b, u, plan := buffer.data, peer.unread, peer.plan;
      ghost var before := Frames(b + u, left);
      var r := ReceiveMessage(peer, buffer);
      if !r.Message? { return false, messages; }
      if ready {
        RoundStep(b, u, plan, buffer.data, peer.unread, peer.plan, left, r.message);
      }
      ghost var after := Frames(buffer.data + peer.unread, left - 1);
      AppendOne(messages, r.message, after);
      assert ready ==> whole == Append(messages, before) && before == Append([r.message], after);
      messages, left := messages + [r.message], left - 1;
      assert ready ==> whole == Append(messages, after);
    }
    ok := true;
    assert messages + [] == messages;
  }

  function Append(ms: seq<Received>, r: Option<(seq<Received>, string)>): Option<(seq<Received>, string)> {
    match r
    case None => None
    case Some((more, rest)) => Some((ms + more, rest))
  }

  lemma {:induction false} AppendNothing(r: Option<(seq<Received>, string)>)
    ensures Append([], r) == r
  {
    if r.Some? {
      assert [] + r.value.0 == r.value.0;
    }
  }

  lemma {:induction false} AppendOne(ms: seq<Received>, m: Received, r: Option<(seq<Received>, string)>)
    ensures Append(ms, Append([m], r)) == Append(ms + [m], r)
  {
    if r.Some? {
      assert ms + ([m] + r.value.0) == ms + [m] + r.value.0;
    }
  }
}
