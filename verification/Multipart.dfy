/** `parse_multipart_body`: the sliding window that streams a file part to disk, and the
    part loop around it. Section 5.1.1 of RFC 2046 and RFC 7578. */
module Multipart {
  import opened Results
  import opened Numbers
  import opened Search

  const BLOCK: nat := 10240

  /** A `std::istream` over `content`. `good` is false once a read hit the end. */
  class InputStream {
    const content: string
    var position: nat
    var good: bool

    constructor (content: string)
      ensures this.content == content && position == 0 && good
    {
      this.content := content;
      position, good := 0, true;
    }

    ghost predicate Valid()
      reads this
    {
      position <= |content|
    }

    ghost function Left(): string
      reads this
      requires Valid()
    {
      content[position..]
    }

    /** `read` followed by `gcount` */
    method Read(n: nat) returns (data: string)
      requires Valid()
      modifies this
      ensures Valid()
      ensures !old(good) ==> data == "" && !good && position == old(position)
      ensures old(good) ==>
                var k := if old(|Left()|) < n then old(|Left()|) else n;
                && data == old(Left())[..k] && position == old(position) + k
                && good == (n <= old(|Left()|))
    {
      data := "";
      if good {
        var left := |content| - position;
        var k := if left < n then left else n;
        data := content[position..position + k];
        assert data == content[position..][..k];
        position, good := position + k, n <= left;
      }
    }

    /** `std::getline`: a stream that is not good leaves the string as it was. */
    method GetLine(previous: string) returns (line: string)
      requires Valid()
      modifies this
      ensures Valid()
      ensures !old(good) ==> line == previous && !good && position == old(position)
      ensures old(good) ==>
                var left := old(Left()); var i := Find(left, "\n");
                if i >= 0 then line == left[..i] && position == old(position) + i + 1 && good
                else line == left && position == |content| && !good
    {
      line := previous;
      if good {
        var left := content[position..];
        var i := Find(left, "\n");
        if i >= 0 {
          line, position := left[..i], position + i + 1;
        } else {
          line, position, good := left, |content|, false;
        }
      }
    }

    /** `clear` and `seekg(-n, cur)` */
    method Rewind(n: nat)
      requires Valid() && n <= position
      modifies this
      ensures Valid() && good && position == old(position) - n
    {
      position, good := position - n, true;
    }
  }

  // ---- Streaming one file part ----

  function Split(boundary: string): string {
    "--" + boundary
  }

  function Delimiter(boundary: string): string {
    "\r\n--" + boundary
  }

  /** How many of `n` bytes have been read once `x` of them had to be, block by block. */
  function ReadTo(n: nat, x: nat): nat {
    var bytes := 10240 * ((x + 10239) / 10240);
    if bytes < n then bytes else n
  }

  /** `Spins`: the C++ loop repeats for ever. `Underflows`: the unsigned length of the
      retained tail wraps around. */
  datatype Streamed = Done | Spins | Underflows

  /** The whole content goes to the file and the stream is left at `--boundary`. */
  predicate Exact(r: string, boundary: string, written: string, consumed: nat) {
    var q := Find(r, Delimiter(boundary));
    q >= 0 && written == r[..q] && consumed == q + 2
  }

  /** The guard under which streaming is exact: the first delimiter is complete by the
      end of the block that completes the first `--boundary`. */
  predicate DelimiterInTime(r: string, boundary: string) {
    var p, q := Find(r, Split(boundary)), Find(r, Delimiter(boundary));
    p >= 0 && q >= 0 && q + |Delimiter(boundary)| <= ReadTo(|r|, p + |Split(boundary)|)
  }

  lemma {:induction false} DelimiterHoldsSplit(r: string, boundary: string, i: nat)
    requires OccursAt(r, Delimiter(boundary), i)
    ensures OccursAt(r, Split(boundary), i + 2)
  {
    var d, s := Delimiter(boundary), Split(boundary);
    assert d[2..] == s;
    assert r[i + 2..i + 2 + |s|] == r[i..i + |d|][2..];
  }

  /** The first `w` bytes may be written: the `|boundary| + 5` bytes retained behind
      them were searched and hold no `--boundary`. */
  predicate SafeToWrite(r: string, boundary: string, w: nat) {
    w > 0 ==> w + |boundary| + 5 <= |r| && !Contains(r[..w + |boundary| + 5], Split(boundary))
  }

  lemma {:induction false} NothingBefore(r: string, boundary: string, w: nat, j: nat)
    requires SafeToWrite(r, boundary, w) && j < w
    ensures !OccursAt(r, Split(boundary), j) && !OccursAt(r, Split(boundary), j + 2)
    ensures !OccursAt(r, Delimiter(boundary), j)
  {
    var b := r[..w + |boundary| + 5];
    OccursInPrefix(b, r, Split(boundary), j);
    OccursInPrefix(b, r, Split(boundary), j + 2);
    if OccursAt(r, Delimiter(boundary), j) {
      DelimiterHoldsSplit(r, boundary, j);
    }
  }

  /** Searching the window is searching everything read so far. */
  lemma {:induction false} WindowFinds(r: string, boundary: string, w: nat, k: nat)
    requires w <= k <= |r| && SafeToWrite(r, boundary, w)
    ensures var p := Find(r, Split(boundary));
            Contains(r[w..k], Split(boundary)) <==> p >= 0 && p + |Split(boundary)| <= k
    ensures Contains(r[w..k], Split(boundary)) <==> Contains(r[..k], Split(boundary))
    ensures var q := Find(r, Delimiter(boundary));
            Find(r[w..k], Delimiter(boundary)) == if q >= 0 && q + |Delimiter(boundary)| <= k then q - w else -1
    ensures var q := Find(r, Delimiter(boundary)); q >= 0 ==> q >= w
  {
    var d, s := Delimiter(boundary), Split(boundary);
    var b := r[..k];
    forall j | 0 <= j < w ensures !OccursAt(r, d, j) && !OccursAt(b, d, j) && !OccursAt(b, s, j) {
      NothingBefore(r, boundary, w, j);
      OccursInPrefix(b, r, d, j);
      OccursInPrefix(b, r, s, j);
    }
    FindInPrefix(b, r, d);
    FindInPrefix(b, r, s);
    FindShift(b, d, w);
    FindShift(b, s, w);
    assert b[w..] == r[w..k];
  }

  /** Bytes written and bytes consumed when the loop ends: exact if the delimiter is in
      time, otherwise everything read. */
  predicate StreamedAs(r: string, boundary: string, written: string, consumed: nat) {
    && Find(r, Split(boundary)) >= 0
    && if DelimiterInTime(r, boundary) then Exact(r, boundary, written, consumed)
       else
         var k := ReadTo(|r|, Find(r, Split(boundary)) + |Split(boundary)|);
         written == r[..k] && consumed == k
  }

  lemma {:induction false} LastBlock(r: string, boundary: string, k0: nat, k: nat, blocks: nat)
    requires k0 == Min(10240 * blocks, |r|) && k == Min(10240 * (blocks + 1), |r|)
    requires !Contains(r[..k0], Split(boundary))
    requires var p := Find(r, Split(boundary)); p >= 0 && p + |Split(boundary)| <= k
    ensures k == ReadTo(|r|, Find(r, Split(boundary)) + |Split(boundary)|)
  {
    FindInPrefix(r[..k0], r, Split(boundary));
    BlockOf(Find(r, Split(boundary)) + |Split(boundary)|, blocks);
  }

  /** What the last round leaves behind. */
  lemma {:induction false} LastRound(r: string, boundary: string, w: nat, k0: nat, k: nat, blocks: nat)
    requires w <= k <= |r| && SafeToWrite(r, boundary, w)
    requires k0 == Min(10240 * blocks, |r|) && k == Min(10240 * (blocks + 1), |r|)
    requires !Contains(r[..k0], Split(boundary)) && Contains(r[w..k], Split(boundary))
    ensures var begin := Find(r[w..k], Delimiter(boundary));
            if begin >= 0 then begin + 2 <= k - w && StreamedAs(r, boundary, r[..w + begin], w + begin + 2)
            else StreamedAs(r, boundary, r[..k], k)
  {
    WindowFinds(r, boundary, w, k);
    LastBlock(r, boundary, k0, k, blocks);
  }

  lemma {:induction false} BlockOf(x: nat, blocks: nat)
    requires 10240 * blocks < x
    ensures x <= 10240 * (blocks + 1) ==> (x + 10239) / 10240 == blocks + 1
    ensures 10240 * ((x + 10239) / 10240) >= x
  {
  }

  lemma {:induction false} Slice(r: string, a: nat, b: nat, c: nat)
    requires a <= b <= c <= |r|
    ensures r[a..b] + r[b..c] == r[a..c]
    ensures r[..a] + r[a..b] == r[..b]
    ensures r[a..c][..b - a] == r[a..b] && r[a..c][b - a..] == r[b..c]
  {
  }

  /** The very first block is shorter than the tail to retain and holds no `--boundary`. */
  predicate TailWraps(r: string, boundary: string) {
    var first := r[..Min(BLOCK, |r|)];
    |first| < |boundary| + 5 && !Contains(first, Split(boundary))
  }

  /** The loop invariant: `blocks` blocks of `r` were read, `w` bytes of it written. */
  predicate Streaming(r: string, boundary: string, blocks: nat, w: nat, written: string, window: string) {
    var k := Min(10240 * blocks, |r|);
    && w <= k && written == r[..w] && window == r[w..k]
    && SafeToWrite(r, boundary, w) && !Contains(r[..k], Split(boundary))
    && (blocks > 0 ==> w + |boundary| + 5 == k && !TailWraps(r, boundary))
  }

  /** Result of the loop for the stream `rest`, of which `consumed` bytes were used up. */
  predicate Outcome(rest: string, boundary: string, r: Streamed, written: string, consumed: int) {
    && (r.Underflows? <==> TailWraps(rest, boundary))
    && (r.Spins? <==> !Contains(rest, Split(boundary)) && !TailWraps(rest, boundary))
    && (r.Done? ==> consumed >= 0 && StreamedAs(rest, boundary, written, consumed))
  }

  lemma {:induction false} Refill(r: string, boundary: string, blocks: nat, w: nat, written: string, window: string, block: string)
    requires Streaming(r, boundary, blocks, w, written, window)
    requires block == r[Min(10240 * blocks, |r|)..Min(10240 * (blocks + 1), |r|)]
    ensures window + block == r[w..Min(10240 * (blocks + 1), |r|)]
    ensures Contains(window + block, Split(boundary))
            <==> Contains(r[..Min(10240 * (blocks + 1), |r|)], Split(boundary))
  {
    var k0, k := Min(10240 * blocks, |r|), Min(10240 * (blocks + 1), |r|);
    Slice(r, w, k0, k);
    WindowFinds(r, boundary, w, k);
  }

  lemma {:induction false} NothingRead(r: string, boundary: string)
    ensures Streaming(r, boundary, 0, 0, "", "")
  {
  }

  lemma {:induction false} WrittenWasRead(r: string, boundary: string, blocks: nat, w: nat, written: string, window: string)
    requires Streaming(r, boundary, blocks, w, written, window)
    ensures w <= Min(10240 * blocks, |r|)
  {
  }

  lemma {:induction false} NoWrap(r: string, boundary: string, blocks: nat, w: nat, written: string, window: string)
    requires Streaming(r, boundary, blocks, w, written, window)
    requires Contains(r[..Min(10240 * (blocks + 1), |r|)], Split(boundary))
    ensures Contains(r, Split(boundary)) && !TailWraps(r, boundary)
  {
    FindInPrefix(r[..Min(10240 * (blocks + 1), |r|)], r, Split(boundary));
  }

  /** A round without `--boundary` whose window is shorter than the tail to retain. */
  lemma {:induction false} Wraps(r: string, boundary: string, blocks: nat, w: nat, written: string, window: string, next: string)
    requires Streaming(r, boundary, blocks, w, written, window)
    requires next == r[w..Min(10240 * (blocks + 1), |r|)] && |next| < |boundary| + 5
    requires !Contains(r[..Min(10240 * (blocks + 1), |r|)], Split(boundary))
    ensures forall t: string, n :: Outcome(r, boundary, Underflows, t, n)
  {
    hide StreamedAs, Contains, SafeToWrite;
  }

  /** A round without `--boundary` for which nothing was left to read. */
  lemma {:induction false} SpinsHere(r: string, boundary: string, blocks: nat, w: nat, written: string, window: string)
    requires Streaming(r, boundary, blocks, w, written, window)
    requires 10240 * blocks >= |r| && |r| >= w + |boundary| + 5 && !Contains(r, Split(boundary))
    ensures forall t: string, n :: Outcome(r, boundary, Spins, t, n)
  {
    hide StreamedAs, Contains, SafeToWrite;
    assert |r| < 10240 ==> r[..Min(BLOCK, |r|)] == r;
  }

  /** Any other round without `--boundary` writes all but the tail. */
  lemma {:induction false} Flush(r: string, boundary: string, blocks: nat, w: nat, written: string, window: string, next: string)
    requires Streaming(r, boundary, blocks, w, written, window)
    requires next == r[w..Min(10240 * (blocks + 1), |r|)] && |next| >= |boundary| + 5
    requires !Contains(r[..Min(10240 * (blocks + 1), |r|)], Split(boundary))
    ensures var n := |next| - |boundary| - 5;
            Streaming(r, boundary, blocks + 1, w + n, written + next[..n], next[n..])
  {
    hide StreamedAs, Contains, TailWraps;
    var k := Min(10240 * (blocks + 1), |r|);
    var n := |next| - |boundary| - 5;
    Slice(r, w, w + n, k);
    assert w + n + |boundary| + 5 == k;
    if blocks == 0 { LongEnough(r, boundary); }
  }

  lemma {:induction false} LongEnough(r: string, boundary: string)
    requires Min(BLOCK, |r|) >= |boundary| + 5
    ensures !TailWraps(r, boundary)
  {
  }

  lemma {:induction false} Finish(r: string, boundary: string, blocks: nat, w: nat, written: string, window: string, next: string)
    requires Streaming(r, boundary, blocks, w, written, window)
    requires next == r[w..Min(10240 * (blocks + 1), |r|)] && Contains(next, Split(boundary))
    ensures var begin := Find(next, Delimiter(boundary));
            var size := if begin < 0 then |next| else begin;
            var left := if size + 2 <= |next| then |next| - size - 2 else 0;
            Outcome(r, boundary, Done, written + next[..size], Min(10240 * (blocks + 1), |r|) - left)
  {
    var k0, k := Min(10240 * blocks, |r|), Min(10240 * (blocks + 1), |r|);
    LastRound(r, boundary, w, k0, k, blocks);
    WindowFinds(r, boundary, w, k);
    NoWrap(r, boundary, blocks, w, written, window);
    var begin := Find(next, Delimiter(boundary));
    if begin >= 0 {
      Slice(r, w, w + begin, k);
    } else {
      Slice(r, w, k, k);
    }
  }

  /** What one round of the loop does with the block just read: `None` means another
      round follows; otherwise `window` is what the stream is rewound by. */
  method Digest(boundary: string, before: string, kept: string, block: string, ghost rest: string, ghost blocks: nat, ghost w0: nat)
    returns (r: Option<Streamed>, written: string, window: string, ghost w: nat)
    requires Streaming(rest, boundary, blocks, w0, before, kept)
    requires block == rest[Min(10240 * blocks, |rest|)..Min(10240 * (blocks + 1), |rest|)]
    ensures r.None? ==> Streaming(rest, boundary, blocks + 1, w, written, window) && 10240 * blocks < |rest|
    ensures r.Some? ==> Outcome(rest, boundary, r.value, written, Min(10240 * (blocks + 1), |rest|) - |window|)
    ensures |window| <= Min(10240 * (blocks + 1), |rest|)
  {
    hide Streaming, Outcome;
    Refill(rest, boundary, blocks, w0, before, kept, block);
    WrittenWasRead(rest, boundary, blocks, w0, before, kept);
    written, window, w := before, kept + block, w0;
    if !Contains(window, Split(boundary)) {
      if |window| < |boundary| + 5 {
        Wraps(rest, boundary, blocks, w0, before, kept, window);
        return Some(Underflows), written, window, w;
      }
      if block == "" {
        assert rest[..|rest|] == rest;
        SpinsHere(rest, boundary, blocks, w0, before, kept);
        return Some(Spins), written, window, w;
      }
      Flush(rest, boundary, blocks, w0, before, kept, window);
      var n := |window| - |boundary| - 5;
      r, written, window, w := None, written + window[..n], window[n..], w + n;
    } else {
      Finish(rest, boundary, blocks, w0, before, kept, window);
      var begin := Find(window, Delimiter(boundary));
      var size := if begin < 0 then |window| else begin;
      written := written + window[..size];
      window := if size + 2 <= |window| then window[size + 2..] else "";
      r := Some(Done);
    }
  }

  /** A block is the next 10240 bytes, or what is left; past the end it is empty. */
  lemma {:induction false} BlockRead(rest: string, blocks: nat, left: string, block: string)
    requires left == rest[Min(10240 * blocks, |rest|)..]
    requires block == if 10240 * blocks <= |rest| then left[..Min(|left|, 10240)] else ""
    ensures block == rest[Min(10240 * blocks, |rest|)..Min(10240 * (blocks + 1), |rest|)]
  {
  }

  /** The do-while loop over a file part. `written` is what reaches the file.
      The outcome is determined for every stream:
      - no `--boundary` ahead: the loop never ends, or the tail length wraps;
      - otherwise it ends, and it is exact precisely when `DelimiterInTime`. */
  method StreamFile(data: InputStream, boundary: string) returns (r: Streamed, written: string)
    requires data.Valid() && data.good
    modifies data
    ensures data.Valid() && data.position >= old(data.position)
    ensures Outcome(old(data.Left()), boundary, r, written, data.position - old(data.position))
    ensures r.Done? ==> data.good
  {
    hide Streaming;
    ghost var rest := data.Left();
    ghost var w, blocks := 0, 0;
    var window := "";
    written := "";
    NothingRead(rest, boundary);
    while true
      invariant data.Valid() && data.good == (10240 * blocks <= |rest|)
      invariant data.position == old(data.position) + Min(10240 * blocks, |rest|)
      invariant Streaming(rest, boundary, blocks, w, written, window)
      decreases |rest| - Min(10240 * blocks, |rest|)
    {
      ghost var k0, left := Min(10240 * blocks, |rest|), data.Left();
      assert left == rest[k0..];
      var block := data.Read(BLOCK);
      BlockRead(rest, blocks, left, block);
      var result;
      result, written, window, w := Digest(boundary, written, window, block, rest, blocks, w);
      if result.Some? {
        r := result.value;
        if r.Done? { data.Rewind(|window|); }
        return;
      }
      blocks := blocks + 1;
    }
  }

  /** Of all outcomes, the loop is exact (it ends, the whole content is in the file, and the
      stream stands at `--boundary`) precisely when the delimiter is in time. */
  lemma {:induction false} StreamedExactly(rest: string, boundary: string, r: Streamed, written: string, consumed: int)
    requires Outcome(rest, boundary, r, written, consumed)
    ensures r.Done? && consumed >= 0 && Exact(rest, boundary, written, consumed)
       <==> DelimiterInTime(rest, boundary) && !TailWraps(rest, boundary)
  {
    var q := Find(rest, Delimiter(boundary));
    assert q >= 0 ==> |rest[..q]| == q;
  }

  // ---- The file comes through intact ----

  /** A boundary as a Content-Type header can carry it; RFC 2046 allows 70 characters. */
  predicate ValidBoundary(boundary: string) {
    Free(boundary, '\r') && Free(boundary, '\n') && |boundary| + 5 <= BLOCK
  }

  lemma {:induction false} NoSplitBefore(content: string, boundary: string, tail: string, j: nat)
    requires ValidBoundary(boundary) && !Contains(content, Split(boundary))
    requires j < |content| + 2
    ensures !OccursAt(content + Delimiter(boundary) + tail, Split(boundary), j)
  {
    var r, s := content + Delimiter(boundary) + tail, Split(boundary);
    if OccursAt(r, s, j) {
      var at := |content|;
      assert r[at] == '\r' && r[at + 1] == '\n';
      assert Free(s, '\r') && Free(s, '\n');
      if j + |s| <= at {
        OccursInPrefix(content, r, s, j);
      } else if j <= at {
        OccursChar(r, s, j, at - j);
      } else {
        OccursChar(r, s, j, 0);
      }
    }
  }

  /** Where the delimiter and the split text behind a content are first found. */
  lemma {:induction false} FirstBehind(content: string, boundary: string, tail: string)
    requires ValidBoundary(boundary) && !Contains(content, Split(boundary))
    ensures var r := content + Delimiter(boundary) + tail;
            Find(r, Delimiter(boundary)) == |content| && Find(r, Split(boundary)) == |content| + 2
  {
    hide Find, ValidBoundary;
    var r, d, s := content + Delimiter(boundary) + tail, Delimiter(boundary), Split(boundary);
    var n := |content|;
    assert r[n..n + |d|] == d;
    assert OccursAt(r, d, n);
    DelimiterHoldsSplit(r, boundary, n);
    forall j | 0 <= j < n + 2 ensures !OccursAt(r, s, j) {
      NoSplitBefore(content, boundary, tail, j);
    }
    FindIs(r, s, n + 2);
    forall j | 0 <= j < n ensures !OccursAt(r, d, j) {
      if OccursAt(r, d, j) { DelimiterHoldsSplit(r, boundary, j); }
    }
    FindIs(r, d, n);
  }

  /** A content without `--boundary` meets the guard whatever its length and wherever
      the block boundaries fall. */
  lemma {:induction false} ContentRecovered(content: string, boundary: string, tail: string)
    requires ValidBoundary(boundary) && !Contains(content, Split(boundary))
    ensures var r := content + Delimiter(boundary) + tail;
            && DelimiterInTime(r, boundary) && Find(r, Delimiter(boundary)) == |content|
            && Contains(r, Split(boundary)) && !TailWraps(r, boundary)
  {
    hide Find;
    FirstBehind(content, boundary, tail);
    var r := content + Delimiter(boundary) + tail;
    RoundedUp(|content| + 2 + |Split(boundary)|);
    if |r| < |boundary| + 5 {
      assert r[..|r|] == r;
    }
  }

  lemma {:induction false} RoundedUp(x: nat)
    ensures 10240 * ((x + 10239) / 10240) >= x
  {
  }

  // ---- The part loop ----

  /** Lines are kept as `getline` returns them, with their carriage return. */
  datatype Part = File(disposition: string, contentType: string, content: string) | Text(disposition: string, value: string)

  /** The header grammars, taken as given: whether a disposition line is well formed and
      names a file, and whether a content-type line is well formed. */
  datatype Grammar = Grammar(disposition: string -> Option<bool>, contentType: string -> bool)

  predicate ValidPart(p: Part, boundary: string, g: Grammar) {
    && Free(p.disposition, '\n') && g.disposition(p.disposition) == Some(p.File?)
    && match p
       case File(_, contentType, content) =>
         && Free(contentType, '\n') && contentType != "" && contentType != "\r" && g.contentType(contentType)
         && !Contains(content, Split(boundary))
       case Text(_, value) => Free(value, '\n')
  }

  /** A part behind its boundary line, up to but excluding the line break before the next boundary. */
  function PartText(p: Part): string {
    match p
    case File(disposition, contentType, content) =>
      disposition + "\n" + (contentType + "\n" + ("\r" + "\n" + content))
    case Text(disposition, value) => disposition + "\n" + ("\r" + "\n" + value)
  }

  /** `lines` are the lines in front of the parts. */
  function Encode(parts: seq<Part>, lines: seq<string>, boundary: string, epilogue: string): string
    requires |parts| == |lines|
  {
    if parts == [] then "--" + boundary + "--\r" + "\n" + epilogue
    else lines[0] + "\n" + (PartText(parts[0]) + "\r\n" + Encode(parts[1..], lines[1..], boundary, epilogue))
  }

  /** What the loop takes for the line in front of a part: anything but the final line and nothing. */
  predicate ValidLine(line: string, boundary: string) {
    line != "" && Free(line, '\n') && line != "--" + boundary + "--\r"
  }

  datatype PartResult = Got(part: Part) | Throws | Hangs | Undefined

  /** `getline`, when the next line is known. */
  method NextLine(data: InputStream, previous: string, ghost expected: string, ghost rest: string) returns (line: string)
    requires data.Valid()
    modifies data
    ensures data.Valid() && data.position >= old(data.position)
    ensures old(data.good) && old(data.position) == data.position ==> !data.good
    ensures !old(data.good) ==> !data.good && data.position == old(data.position)
    ensures data.good ==> Free(line, '\n') && old(data.Left()) == line + "\n" + data.Left()
    ensures old(data.good) && Free(expected, '\n') && old(data.Left()) == expected + "\n" + rest ==>
              line == expected && data.good && data.Left() == rest
  {
    ghost var left := data.Left();
    if Free(expected, '\n') { LineSplit(expected, rest); }
    line := data.GetLine(previous);
    if data.good { LineTaken(left); }
  }

  lemma {:induction false} LineTaken(s: string)
    requires Find(s, "\n") >= 0
    ensures var i := Find(s, "\n"); Free(s[..i], '\n') && s == s[..i] + "\n" + s[i + 1..]
  {
    var i := Find(s, "\n");
    OccursChar(s, "\n", i, 0);
    forall j | 0 <= j < i ensures s[j] != '\n' {
      assert s[j] == '\n' ==> OccursAt(s, "\n", j);
    }
  }

  /** The content of a file part, behind its blank line. */
  method ReadFile(data: InputStream, boundary: string, ghost content: string, ghost next: string)
    returns (r: Streamed, written: string)
    requires data.Valid()
    modifies data
    ensures data.Valid() && data.position >= old(data.position)
    ensures !old(data.good) ==> r.Underflows?
    ensures old(data.good) ==>
              && Outcome(old(data.Left()), boundary, r, written, data.position - old(data.position))
              && (r.Done? ==> data.Left() == old(data.Left())[data.position - old(data.position)..])
    ensures ValidBoundary(boundary) && !Contains(content, Split(boundary)) && Split(boundary) <= next
            && old(data.good) && old(data.Left()) == content + "\r\n" + next ==>
              r.Done? && written == content && data.good && data.Left() == next
  {
    hide Outcome, ValidBoundary, Contains;
    if !data.good { return Underflows, ""; }
    ghost var left := data.Left();
    if ValidBoundary(boundary) && !Contains(content, Split(boundary)) && Split(boundary) <= next
       && left == content + "\r\n" + next {
      ReadsContent(left, boundary, content, next);
    }
    ghost var start := data.position;
    r, written := StreamFile(data, boundary);
    assert r.Done? ==> data.Left() == left[data.position - start..];
  }

  /** The only outcome on a stream that holds a content and then a boundary line. */
  lemma {:induction false} ReadsContent(left: string, boundary: string, content: string, next: string)
    requires ValidBoundary(boundary) && !Contains(content, Split(boundary)) && Split(boundary) <= next
    requires left == content + "\r\n" + next
    ensures forall r, written: string, consumed: int | Outcome(left, boundary, r, written, consumed) ::
              r.Done? && written == content && consumed >= 0 && consumed <= |left| && left[consumed..] == next
  {
    hide Find;
    var tail := next[|Split(boundary)|..];
    assert next == Split(boundary) + tail;
    assert left == content + Delimiter(boundary) + tail;
    ContentRecovered(content, boundary, tail);
    assert left[|content| + 2..] == next;
    assert left[..|content|] == content;
  }

  function MetaText(p: Part, rest: string): string {
    var blank := "\r" + "\n" + rest;
    p.disposition + "\n" + if p.File? then p.contentType + "\n" + blank else blank
  }

  predicate MetaFits(isFile: bool, disposition: string, contentType: string, g: Grammar) {
    && g.disposition(disposition) == Some(isFile)
    && if isFile then contentType != "" && contentType != "\r" && g.contentType(contentType) else contentType == ""
  }

  /** The lines before a part's content: `None` when one of them is rejected. What is not
      rejected was there, in this order, and fits the grammars. */
  method ReadMeta(data: InputStream, g: Grammar, boundaryLine: string, ghost p: Part, ghost rest: string)
    returns (meta: Option<(bool, string, string)>)
    requires data.Valid()
    modifies data
    ensures data.Valid() && data.position >= old(data.position)
    ensures !old(data.good) ==> !data.good
    ensures Free(p.disposition, '\n') && g.disposition(p.disposition) == Some(p.File?)
            && (p.File? ==> Free(p.contentType, '\n') && p.contentType != "" && p.contentType != "\r" && g.contentType(p.contentType))
            && old(data.good) && old(data.Left()) == MetaText(p, rest) ==>
              && meta == Some((p.File?, p.disposition, if p.File? then p.contentType else ""))
              && data.good && data.Left() == rest
    ensures meta.Some? && data.good ==>
              var (isFile, disposition, contentType) := meta.value;
              && MetaFits(isFile, disposition, contentType, g)
              && old(data.Left()) == MetaText(if isFile then File(disposition, contentType, "") else Text(disposition, ""), data.Left())
  {
    ghost var blank := "\r" + "\n" + rest;
    var disposition := NextLine(data, boundaryLine, p.disposition, if p.File? then p.contentType + "\n" + blank else blank);
    var isFile := g.disposition(disposition);
    if isFile.None? { return None; }
    var line, contentType := disposition, "";
    if isFile.value {
      line := NextLine(data, line, if p.File? then p.contentType else "", blank);
      if line == "" || line == "\r" || !g.contentType(line) { return None; }
      contentType := line;
    }
    line := NextLine(data, line, "\r", rest);
    if line != "\r" { return None; }
    meta := Some((isFile.value, disposition, contentType));
  }

  /** `p` is what `s` starts with, in front of `next`: its lines fit the grammars, a text lacks
      the last character of its line, and a file is streamed to where the loop ends. */
  ghost predicate TakenFrom(s: string, boundary: string, g: Grammar, p: Part, next: string) {
    match p
    case Text(disposition, value) =>
      MetaFits(false, disposition, "", g) && exists last: char ::
        '\n' !in value + [last] && s == MetaText(p, value + [last] + "\n" + next)
    case File(disposition, contentType, content) =>
      MetaFits(true, disposition, contentType, g) && exists rest, consumed: nat ::
        && consumed <= |rest| && s == MetaText(p, rest)
        && StreamedAs(rest, boundary, content, consumed) && next == rest[consumed..]
  }

  function Content(p: Part): string {
    if p.File? then p.content else p.value
  }

  /** The content of a text part: its line without the last character, whatever that is. */
  method ReadText(data: InputStream, ghost content: string, ghost next: string) returns (value: Option<string>)
    requires data.Valid()
    modifies data
    ensures data.Valid() && data.position >= old(data.position)
    ensures !old(data.good) ==> !data.good
    ensures Free(content, '\n') && old(data.good) && old(data.Left()) == content + "\r\n" + next ==>
              value == Some(content) && data.good && data.Left() == next
    ensures value.Some? && data.good ==> exists last: char ::
              '\n' !in value.value + [last] && old(data.Left()) == value.value + [last] + "\n" + data.Left()
  {
    assert content + "\r\n" + next == (content + "\r") + "\n" + next;
    var line := NextLine(data, "\r", content + "\r", next);
    if line == "" { return None; }
    var n := |line| - 1;
    assert line[..n] + [line[n]] == line;
    value := Some(line[..n]);
  }

  lemma {:induction false} MetaThenContent(p: Part, next: string)
    ensures PartText(p) + "\r\n" + next == MetaText(p, Content(p) + "\r\n" + next)
  {
  }

  lemma {:induction false} SameMeta(p: Part, q: Part)
    requires p.File? == q.File? && p.disposition == q.disposition && (p.File? ==> p.contentType == q.contentType)
    ensures forall rest :: MetaText(p, rest) == MetaText(q, rest)
  {
  }

  /** One round of the part loop, after the boundary line. `p` and `next` only name the
      part and the rest when the input is well formed. */
  method ReadPart(data: InputStream, boundary: string, g: Grammar, boundaryLine: string, ghost p: Part, ghost next: string)
    returns (r: PartResult)
    requires data.Valid()
    modifies data
    ensures data.Valid() && data.position >= old(data.position)
    ensures !old(data.good) && r.Got? ==> !data.good
    ensures ValidBoundary(boundary) && ValidPart(p, boundary, g) && (p.File? ==> Split(boundary) <= next)
            && old(data.good) && old(data.Left()) == PartText(p) + "\r\n" + next ==>
              r == Got(p) && data.good && data.Left() == next
    ensures r.Got? && data.good ==> TakenFrom(old(data.Left()), boundary, g, r.part, data.Left())
  {
    hide StreamedAs, TailWraps, Contains, MetaText;
    ghost var rest := Content(p) + "\r\n" + next;
    MetaThenContent(p, next);
    var meta := ReadMeta(data, g, boundaryLine, p, rest);
    if meta.None? { return Throws; }
    var (isFile, disposition, contentType) := meta.value;
    if !isFile {
      var value := ReadText(data, Content(p), next);
      if value.None? { return Throws; }
      SameMeta(Text(disposition, ""), Text(disposition, value.value));
      return Got(Text(disposition, value.value));
    }
    ghost var left, start := data.Left(), data.position;
    var streamed, content := ReadFile(data, boundary, Content(p), next);
    assert streamed.Done? && data.good ==> data.Left() == left[data.position - start..];
    SameMeta(File(disposition, contentType, ""), File(disposition, contentType, content));
    match streamed
    case Done => r := Got(File(disposition, contentType, content));
    case Spins => r := Hangs;
    case Underflows => r := Undefined;
  }

  function FinalLine(boundary: string): string {
    "--" + boundary + "--\r"
  }

  function FirstLine(lines: seq<string>, boundary: string): string {
    if lines == [] then FinalLine(boundary) else lines[0]
  }

  lemma {:induction false} EncodeLines(todo: seq<Part>, lines: seq<string>, boundary: string, epilogue: string)
    requires ValidBoundary(boundary) && |todo| == |lines|
    ensures Free(FinalLine(boundary), '\n') && FinalLine(boundary) == "--" + boundary + "--\r"
    ensures Split(boundary) <= FinalLine(boundary)
    ensures Encode(todo, lines, boundary, epilogue)
            == FirstLine(lines, boundary) + "\n" + AfterBoundary(todo, lines, boundary, epilogue)
  {
  }

  function AfterBoundary(todo: seq<Part>, lines: seq<string>, boundary: string, epilogue: string): string
    requires |todo| == |lines|
  {
    if todo == [] then epilogue else PartText(todo[0]) + "\r\n" + Encode(todo[1..], lines[1..], boundary, epilogue)
  }

  datatype Parsed = Parts(parts: seq<Part>) | Failed | Endless | Unspecified

  /** The parts and the lines in front of them; behind a file stands a boundary. */
  predicate AllValid(todo: seq<Part>, lines: seq<string>, boundary: string, g: Grammar) {
    && |todo| == |lines|
    && (forall i | 0 <= i < |todo| :: ValidPart(todo[i], boundary, g) && ValidLine(lines[i], boundary))
    && (forall i | 0 < i < |todo| && todo[i - 1].File? :: Split(boundary) <= lines[i])
  }

  lemma {:induction false} FirstPart(parts: seq<Part>, todo: seq<Part>, lines: seq<string>, boundary: string, g: Grammar, epilogue: string)
    requires todo != [] && AllValid(todo, lines, boundary, g) && ValidBoundary(boundary)
    ensures ValidPart(todo[0], boundary, g) && AllValid(todo[1..], lines[1..], boundary, g)
    ensures todo[0].File? ==> Split(boundary) <= Encode(todo[1..], lines[1..], boundary, epilogue)
    ensures parts + todo == parts + [todo[0]] + todo[1..]
  {
    hide ValidPart, ValidLine, ValidBoundary, Encode, Split, FinalLine;
    assert forall i | 0 <= i < |todo| - 1 :: todo[1..][i] == todo[i + 1] && lines[1..][i] == lines[i + 1];
    if todo[0].File? { BehindFile(todo[1..], lines[1..], boundary, epilogue); }
  }

  lemma {:induction false} BehindFile(todo: seq<Part>, lines: seq<string>, boundary: string, epilogue: string)
    requires |todo| == |lines| && ValidBoundary(boundary) && (lines != [] ==> Split(boundary) <= lines[0])
    ensures Split(boundary) <= Encode(todo, lines, boundary, epilogue)
  {
    hide Encode, AfterBoundary, ValidBoundary;
    EncodeLines(todo, lines, boundary, epilogue);
    var first, rest := FirstLine(lines, boundary), "\n" + AfterBoundary(todo, lines, boundary, epilogue);
    assert Encode(todo, lines, boundary, epilogue) == first + rest;
  }

  /** The stream stands where the parts `todo` remain to be read. */
  ghost predicate Remains(data: InputStream, boundary: string, g: Grammar, todo: seq<Part>, lines: seq<string>, epilogue: string)
    reads data
  {
    && data.Valid() && data.good && ValidBoundary(boundary)
    && AllValid(todo, lines, boundary, g)
    && data.Left() == Encode(todo, lines, boundary, epilogue)
  }

  /** `parse_multipart_body`: a body written for a list of parts is read back as that
      list, each file byte for byte. The lines in front of the parts are not looked at. */
  method ParseMultipart(data: InputStream, boundary: string, g: Grammar,
                        ghost sent: seq<Part>, ghost lines: seq<string>, ghost epilogue: string)
    returns (r: Parsed)
    requires data.Valid() && data.good && data.position == 0
    modifies data
    ensures old(Remains(data, boundary, g, sent, lines, epilogue)) ==> r == Parts(sent)
  {
    hide Encode, ValidPart, AllValid, PartText, ValidBoundary, FinalLine;
    ghost var fits := Remains(data, boundary, g, sent, lines, epilogue);
    ghost var todo, ahead := sent, lines;
    var parts := [];
    while data.good
      invariant data.Valid()
      invariant fits ==> parts + todo == sent && Remains(data, boundary, g, todo, ahead, epilogue)
      decreases |data.content| - data.position, data.good
    {
      ghost var more, p, line0, behind := "", Text("", ""), "", "";
      if fits {
        PartsMatch(todo, ahead, boundary, g);
        EncodeLines(todo, ahead, boundary, epilogue);
        line0, behind := FirstLine(ahead, boundary), AfterBoundary(todo, ahead, boundary, epilogue);
        if todo != [] {
          more, p := Encode(todo[1..], ahead[1..], boundary, epilogue), todo[0];
          FirstPart(parts, todo, ahead, boundary, g, epilogue);
        }
      }
      var line := NextLine(data, "", line0, behind);
      if line == FinalLine(boundary) {
        assert fits ==> todo == [];
        return Parts(parts);
      }
      if line == "" { return Failed; }
      var part := ReadPart(data, boundary, g, line, p, more);
      match part
      case Throws => return Failed;
      case Hangs => return Endless;
      case Undefined => return Unspecified;
      case Got(got) =>
        parts := parts + [got];
        if fits { todo, ahead := todo[1..], ahead[1..]; }
    }
    r := Parts(parts);
  }

  lemma {:induction false} PartsMatch(todo: seq<Part>, lines: seq<string>, boundary: string, g: Grammar)
    requires AllValid(todo, lines, boundary, g)
    ensures |todo| == |lines|
    ensures todo != [] ==> lines[0] != "" && Free(lines[0], '\n') && lines[0] != "--" + boundary + "--\r"
  {
  }
}
