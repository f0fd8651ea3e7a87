/** Header blocks: `parse_http_header2` and the text `serialize_header` prints. */
module HttpHeader {
  import opened Search

  const CRLF: string := "\r\n"
  const BLANK: string := "\r\n\r\n"

  /** One header field; on the wire, everything after the colon is the value. */
  datatype Field = Field(key: string, value: string)

  /** A header map: it tells names apart without regard to letter case and keeps the
      spelling it was first given. Its keys are the folded names. */
  type Fields = map<string, Field>

  /** The fold; also what `iequals` compares. */
  function Lower(s: string): string {
    seq(|s|, i requires 0 <= i < |s| => LowerChar(s[i]))
  }

  function LowerChar(c: char): char {
    if 'A' <= c <= 'Z' then c - 'A' + 'a' else c
  }

  predicate Has(m: Fields, name: string) {
    Lower(name) in m
  }

  function ValueOf(m: Fields, name: string): string
    requires Has(m, name)
  {
    m[Lower(name)].value
  }

  datatype Start = Start(p1: string, p2: string, p3: string)

  /** `Undefined`: the C++ pops the last character of an empty string. */
  datatype Parsed = Header(start: Start, fields: Fields) | Rejected | Undefined

  // ---- What the parser computes ----

  /** The parser gets a C string: everything from the first NUL on is invisible to it. */
  function CString(s: string): (c: string)
    ensures c <= s
  {
    var i := Find(s, "\0");
    if i < 0 then s else s[..i]
  }

  /** `std::getline`: the text up to the next newline, which is dropped. */
  function Line(s: string): string {
    var i := Find(s, "\n");
    if i < 0 then s else s[..i]
  }

  function AfterLine(s: string): (rest: string)
    ensures s != "" ==> |rest| < |s|
  {
    var i := Find(s, "\n");
    if i < 0 then "" else s[i + 1..]
  }

  function DropSpaces(s: string): (t: string)
    ensures |t| <= |s|
  {
    if s != "" && s[0] == ' ' then DropSpaces(s[1..]) else s
  }

  /** `boost::algorithm::split` at blanks with adjacent blanks merged. */
  function Words(s: string): seq<string>
    decreases |s|
  {
    var i := Find(s, " ");
    if i < 0 then [s] else [s[..i]] + Words(DropSpaces(s[i + 1..]))
  }

  /** `emplace`: the first value given for a name stays. */
  function Emplace(m: Fields, k: string, v: string): Fields {
    if Has(m, k) then m else m[Lower(k) := Field(k, v)]
  }

  datatype FieldsResult = Parsed(fields: Fields) | UndefinedFields

  function ParseFields(s: string, acc: Fields): FieldsResult
    decreases |s|
  {
    if s == "" then FieldsResult.Parsed(acc)
    else if Line(s) == "" then UndefinedFields
    else
      var line := Line(s)[..|Line(s)| - 1];
      if line == "" then FieldsResult.Parsed(acc)
      else
        var colon := Find(line, ":");
        ParseFields(AfterLine(s), if colon < 0 then acc else Emplace(acc, line[..colon], line[colon + 1..]))
  }

  function ParseBlock(s: string): Parsed {
    var line := Line(s);
    if line == "" then Undefined
    else
      var words := Words(line[..|line| - 1]);
      if |words| != 3 then Rejected
      else
        match ParseFields(AfterLine(s), map[])
        case UndefinedFields => Undefined
        case Parsed(fields) => Header(Start(words[0], words[1], words[2]), fields)
  }

  /** `parse_http_header2`, given the memory `s` at the start of the header block. */
  function ParseHeader(s: string): Parsed {
    ParseBlock(CString(s))
  }

  /** One line of the field loop. */
  lemma {:induction false} FieldsStep(s: string, acc: Fields)
    requires s != ""
    ensures Line(s) == "" ==> ParseFields(s, acc) == UndefinedFields
    ensures Line(s) != "" ==>
              var line := Line(s)[..|Line(s)| - 1]; var colon := Find(line, ":");
              && (line == "" ==> ParseFields(s, acc) == FieldsResult.Parsed(acc))
              && (line != "" && colon < 0 ==> ParseFields(s, acc) == ParseFields(AfterLine(s), acc))
              && (line != "" && colon >= 0 ==>
                    ParseFields(s, acc) == ParseFields(AfterLine(s), Emplace(acc, line[..colon], line[colon + 1..])))
  {
  }

  lemma {:induction false} FieldsEnd(acc: Fields)
    ensures ParseFields("", acc) == FieldsResult.Parsed(acc)
  {
  }

  /** The field loop of `parse_http_header2`. */
  method ReadFields(text: string) returns (r: FieldsResult)
    ensures r == ParseFields(text, map[])
  {
    hide ParseFields, Emplace, Line, Find;
    var ss := text;
    var headers: Fields := map[];
    while ss != ""
      invariant ParseFields(ss, headers) == ParseFields(text, map[])
      decreases |ss|
    {
      FieldsStep(ss, headers);
      var line := Line(ss);
      ss := AfterLine(ss);
      if line == "" { return UndefinedFields; }
      line := line[..|line| - 1];
      if line == "" { return FieldsResult.Parsed(headers); }
      var pos := Find(line, ":");
      if pos < 0 { continue; }
      headers := Emplace(headers, line[..pos], line[pos + 1..]);
    }
    FieldsEnd(headers);
    r := FieldsResult.Parsed(headers);
  }

  /** `parse_http_header2` */
  method ReadHeader(memory: string) returns (r: Parsed)
    ensures r == ParseHeader(memory)
  {
    hide ParseFields, Words, CString, Find;
    var ss := CString(memory);
    var line;
    line, ss := Line(ss), AfterLine(ss);
    if line == "" { return Undefined; }
    var metas := Words(line[..|line| - 1]);
    if |metas| != 3 { return Rejected; }
    var fields := ReadFields(ss);
    r := if fields.UndefinedFields? then Undefined else Header(Start(metas[0], metas[1], metas[2]), fields.fields);
  }

  // ---- When the parser is undefined ----

  /** The lines `getline` yields. */
  function Lines(s: string): seq<string>
    decreases |s|
  {
    if s == "" then [] else [Line(s)] + Lines(AfterLine(s))
  }

  /** An empty line comes before any line that `pop_back` empties, from the `from`-th on. */
  predicate EmptyFirst(lines: seq<string>, from: nat) {
    exists i | from <= i < |lines| :: lines[i] == "" && forall j | from <= j < i :: |lines[j]| != 1
  }

  lemma {:induction false} EmptyFirstStep(line: string, rest: seq<string>)
    ensures EmptyFirst([line] + rest, 0) <==> line == "" || (|line| != 1 && EmptyFirst(rest, 0))
  {
    var lines := [line] + rest;
    if line == "" { assert lines[0] == ""; }
    if |line| != 1 && EmptyFirst(rest, 0) {
      var i :| 0 <= i < |rest| && rest[i] == "" && forall j | 0 <= j < i :: |rest[j]| != 1;
      assert lines[i + 1] == "" && forall j | 0 < j < i + 1 :: lines[j] == rest[j - 1];
    }
    if EmptyFirst(lines, 0) && line != "" {
      var i :| 0 <= i < |lines| && lines[i] == "" && forall j | 0 <= j < i :: |lines[j]| != 1;
      assert rest[i - 1] == "" && forall j | 0 <= j < i - 1 :: rest[j] == lines[j + 1];
    }
  }

  lemma {:induction false} FieldsUndefined(s: string, acc: Fields)
    ensures ParseFields(s, acc).UndefinedFields? <==> EmptyFirst(Lines(s), 0)
    decreases |s|
  {
    hide Emplace, Line, Find;
    if s != "" {
      FieldsStep(s, acc);
      EmptyFirstStep(Line(s), Lines(AfterLine(s)));
      var line := Line(s);
      if |line| > 1 {
        var text := line[..|line| - 1];
        var colon := Find(text, ":");
        FieldsUndefined(AfterLine(s), if colon < 0 then acc else Emplace(acc, text[..colon], text[colon + 1..]));
      }
    }
  }

  /** The parser takes a character from an empty string exactly when its first line is
      empty or missing, or when the start line has three words and an empty line comes
      before the line that ends the fields. */
  lemma {:induction false} UndefinedExactly(s: string)
    ensures ParseBlock(s).Undefined?
       <==> var lines := Lines(s);
            lines == [] || lines[0] == "" ||
            (|Words(lines[0][..|lines[0]| - 1])| == 3 && EmptyFirst(lines, 1))
  {
    hide Words, ParseFields, AfterLine, Find;
    var lines := Lines(s);
    if s == "" {
      assert Line(s) == "" by { EmptyHasNoLine(); }
    } else {
      var rest := Lines(AfterLine(s));
      FieldsUndefined(AfterLine(s), map[]);
      ShiftOne(lines[0], rest);
    }
  }

  lemma {:induction false} EmptyHasNoLine()
    ensures Line("") == ""
  {
  }

  lemma {:induction false} ShiftOne(line: string, rest: seq<string>)
    ensures EmptyFirst([line] + rest, 1) <==> EmptyFirst(rest, 0)
  {
    var lines := [line] + rest;
    if EmptyFirst(rest, 0) {
      var i :| 0 <= i < |rest| && rest[i] == "" && forall j | 0 <= j < i :: |rest[j]| != 1;
      assert lines[i + 1] == "" && forall j | 1 <= j < i + 1 :: lines[j] == rest[j - 1];
    }
    if EmptyFirst(lines, 1) {
      var i :| 1 <= i < |lines| && lines[i] == "" && forall j | 1 <= j < i :: |lines[j]| != 1;
      assert rest[i - 1] == "" && forall j | 0 <= j < i - 1 :: rest[j] == lines[j + 1];
    }
  }

  // ---- Header text on the wire ----

  /** One word of the start line. */
  predicate IsToken(s: string) {
    s != "" && Free(s, ' ') && Free(s, '\n') && Free(s, '\0')
  }

  predicate ValidField(f: Field) {
    && Free(f.key, ':') && Free(f.key, '\n') && Free(f.key, '\0')
    && Free(f.value, '\n') && Free(f.value, '\0')
  }

  /** The third word may be missing altogether: an unknown status code has no reason phrase. */
  predicate ValidStart(start: Start) {
    IsToken(start.p1) && IsToken(start.p2) && (start.p3 == "" || IsToken(start.p3))
  }

  predicate ValidFields(fs: seq<Field>) {
    forall i | 0 <= i < |fs| :: ValidField(fs[i])
  }

  function FieldLine(f: Field): string {
    f.key + ":" + f.value + CRLF
  }

  function FieldLines(fs: seq<Field>): string {
    if fs == [] then "" else FieldLine(fs[0]) + FieldLines(fs[1..])
  }

  function StartLine(start: Start): string {
    start.p1 + " " + (start.p2 + " " + start.p3)
  }

  function HeaderText(start: Start, fs: seq<Field>): string {
    StartLine(start) + CRLF + FieldLines(fs) + CRLF
  }

  /** The map the fields mean: the first value of a repeated name. */
  function FieldMap(fs: seq<Field>, acc: Fields): Fields {
    if fs == [] then acc else FieldMap(fs[1..], Emplace(acc, fs[0].key, fs[0].value))
  }

  // ---- Reading a text back line by line ----

  lemma {:induction false} LineOf(line: string, rest: string)
    requires Free(line, '\n')
    ensures Line(line + "\n" + rest) == line && AfterLine(line + "\n" + rest) == rest
  {
    LineSplit(line, rest);
  }

  lemma {:induction false} FieldsRead(fs: seq<Field>, tail: string, acc: Fields)
    requires ValidFields(fs)
    ensures ParseFields(FieldLines(fs) + CRLF + tail, acc) == FieldsResult.Parsed(FieldMap(fs, acc))
  {
    var s := FieldLines(fs) + CRLF + tail;
    if fs == [] {
      assert s == "\r" + "\n" + tail;
      LineOf("\r", tail);
    } else {
      var f := fs[0];
      var line := f.key + ":" + f.value;
      var rest := FieldLines(fs[1..]) + CRLF + tail;
      assert s == (line + "\r") + "\n" + rest;
      LineOf(line + "\r", rest);
      assert (line + "\r")[..|line|] == line;
      FirstChar(line, ':', |f.key|);
      assert Find(line, ":") == |f.key|;
      assert line[..|f.key|] == f.key && line[|f.key| + 1..] == f.value;
      FieldsRead(fs[1..], tail, Emplace(acc, f.key, f.value));
    }
  }

  lemma {:induction false} WordsAfter(w: string, rest: string)
    requires Free(w, ' ')
    ensures Words(w + " " + rest) == [w] + Words(DropSpaces(rest))
  {
    var s := w + " " + rest;
    FirstChar(s, ' ', |w|);
    assert Find(s, " ") == |w|;
    assert s[..|w|] == w && s[|w| + 1..] == rest;
  }

  /** Blanks before the third word are merged with the one that separates it. */
  lemma {:induction false} WordsOfStart(start: Start)
    requires IsToken(start.p1) && IsToken(start.p2)
    ensures Words(StartLine(start)) == [start.p1, start.p2] + Words(DropSpaces(start.p3))
  {
    var rest := start.p2 + " " + start.p3;
    WordsAfter(start.p2, start.p3);
    WordsAfter(start.p1, rest);
    assert rest[0] == start.p2[0];
    assert DropSpaces(rest) == rest;
    FirstTwo(start.p1, start.p2, Words(DropSpaces(start.p3)));
  }

  lemma {:induction false} FirstTwo(a: string, b: string, rest: seq<string>)
    ensures [a] + ([b] + rest) == [a, b] + rest
  {
  }

  lemma {:induction false} WordsOfOne(w: string)
    ensures Free(w, ' ') ==> Words(w) == [w]
    ensures !Free(w, ' ') ==> |Words(w)| >= 2
  {
    if Free(w, ' ') {
      NoChar(w, ' ');
      assert Find(w, " ") == -1;
    } else {
      var k :| 0 <= k < |w| && w[k] == ' ';
      assert OccursAt(w, " ", k);
      var i := Find(w, " ");
      var more := Words(DropSpaces(w[i + 1..]));
      assert Words(w) == [w[..i]] + more && |more| >= 1;
    }
  }

  /** Line structure of a header block and of what follows it. */
  lemma {:induction false} HeaderLines(start: Start, fs: seq<Field>, tail: string)
    requires Free(StartLine(start), '\n')
    ensures var s := HeaderText(start, fs) + tail;
            Line(s) == StartLine(start) + "\r" && AfterLine(s) == FieldLines(fs) + CRLF + tail
  {
    var line := StartLine(start) + "\r";
    var rest := FieldLines(fs) + CRLF + tail;
    assert HeaderText(start, fs) + tail == line + "\n" + rest;
    LineOf(line, rest);
  }

  lemma {:induction false} StartLineFree(start: Start, c: char)
    requires c != ' ' && Free(start.p1, c) && Free(start.p2, c) && Free(start.p3, c)
    ensures Free(StartLine(start), c)
  {
  }

  /** A header block reads back as its start line and field map, whatever follows it. */
  lemma {:induction false} BlockRead(start: Start, fs: seq<Field>, tail: string)
    requires ValidStart(start) && ValidFields(fs)
    ensures ParseBlock(HeaderText(start, fs) + tail) == Header(start, FieldMap(fs, map[]))
  {
    hide Words, ParseFields, Line, AfterLine, HeaderText, FieldLines, FieldMap, ValidFields;
    StartLineFree(start, '\n');
    HeaderLines(start, fs, tail);
    var line := StartLine(start) + "\r";
    assert line[..|line| - 1] == StartLine(start);
    WordsOfStart(start);
    assert DropSpaces(start.p3) == start.p3;
    WordsOfOne(start.p3);
    FieldsRead(fs, tail, map[]);
  }

  lemma {:induction false} FieldLinesFree(fs: seq<Field>)
    requires ValidFields(fs)
    ensures Free(FieldLines(fs), '\0')
  {
    if fs != [] {
      FieldLinesFree(fs[1..]);
    }
  }

  lemma {:induction false} CStringFree(s: string, tail: string)
    requires Free(s, '\0')
    ensures CString(s + tail) == s + CString(tail)
  {
    forall j | 0 <= j < |s| ensures !OccursAt(s + tail, "\0", j) {
      if OccursAt(s + tail, "\0", j) { OccursChar(s + tail, "\0", j, 0); }
    }
    FindShift(s + tail, "\0", |s|);
    assert (s + tail)[|s|..] == tail;
    var i := Find(tail, "\0");
    if i >= 0 { assert (s + tail)[..|s| + i] == s + tail[..i]; }
  }

  /** `parse_http_header2` on a header block followed by any other memory. */
  lemma {:induction false} HeaderRead(start: Start, fs: seq<Field>, tail: string)
    requires ValidStart(start) && ValidFields(fs)
    ensures ParseHeader(HeaderText(start, fs) + tail) == Header(start, FieldMap(fs, map[]))
  {
    var h := HeaderText(start, fs);
    FieldLinesFree(fs);
    assert Free(h, '\0');
    CStringFree(h, tail);
    BlockRead(start, fs, CString(tail));
  }

  // ---- Any header block, well formed or not ----

  predicate EndsBlank(s: string) {
    s == CRLF || (|s| >= 4 && s[|s| - 4..] == BLANK)
  }

  lemma {:induction false} NewlineInside(s: string)
    requires EndsBlank(s)
    ensures var i := Find(s, "\n"); 0 <= i < |s| && s[i] == '\n'
    ensures s == CRLF ==> Find(s, "\n") == 1
    ensures s != CRLF ==> Find(s, "\n") <= |s| - 3 && Find(s, "\n") != |s| - 4
  {
    var k := if s == CRLF then 1 else |s| - 3;
    if s != CRLF {
      assert s[|s| - 4..][0] == s[|s| - 4] && s[|s| - 4..][1] == s[k];
    }
    assert OccursAt(s, "\n", k);
    OccursChar(s, "\n", Find(s, "\n"), 0);
    if s == CRLF {
      assert s[0] != '\n';
    }
  }

  lemma {:induction false} RestEndsBlank(s: string, i: nat)
    requires |s| >= 4 && s[|s| - 4..] == BLANK
    requires i <= |s| - 3 && i != |s| - 4
    ensures EndsBlank(s[i + 1..])
  {
    var t := s[i + 1..];
    if i == |s| - 3 {
      assert t == s[|s| - 4..][2..];
    } else {
      assert t[|t| - 4..] == s[|s| - 4..];
    }
  }

  lemma {:induction false} LineInside(s: string, tail: string)
    requires EndsBlank(s)
    ensures Line(s + tail) == Line(s) && AfterLine(s + tail) == AfterLine(s) + tail
    ensures |AfterLine(s)| < |s|
    ensures s == CRLF ==> Line(s) == "\r"
    ensures s != CRLF ==> EndsBlank(AfterLine(s))
  {
    NewlineInside(s);
    FindInPrefix(s, s + tail, "\n");
    var i := Find(s, "\n");
    assert (s + tail)[..i] == s[..i] && (s + tail)[i + 1..] == s[i + 1..] + tail;
    if s != CRLF {
      RestEndsBlank(s, i);
    }
  }

  lemma {:induction false} FieldsInside(s: string, tail: string, acc: Fields)
    requires EndsBlank(s)
    ensures ParseFields(s + tail, acc) == ParseFields(s, acc)
    decreases |s|
  {
    LineInside(s, tail);
    if s != CRLF && Line(s) != "" {
      var line := Line(s)[..|Line(s)| - 1];
      var colon := Find(line, ":");
      FieldsInside(AfterLine(s), tail, if colon < 0 then acc else Emplace(acc, line[..colon], line[colon + 1..]));
    }
  }

  lemma {:induction false} BlockInside(h: string, tail: string)
    requires |h| >= 4 && h[|h| - 4..] == BLANK
    ensures ParseBlock(h + tail) == ParseBlock(h)
  {
    LineInside(h, tail);
    FieldsInside(AfterLine(h), tail, map[]);
  }

  lemma {:induction false} CStringCut(h: string, tail: string)
    requires !Free(h, '\0')
    ensures CString(h + tail) == CString(h)
  {
    var k :| 0 <= k < |h| && h[k] == '\0';
    assert OccursAt(h, "\0", k);
    FindInPrefix(h, h + tail, "\0");
    var i := Find(h, "\0");
    assert (h + tail)[..i] == h[..i];
  }

  /** What follows the blank line never influences the parse, although the parser is
      handed an unterminated view of the whole read buffer. */
  lemma {:induction false} TailIgnored(h: string, tail: string)
    requires |h| >= 4 && h[|h| - 4..] == BLANK
    ensures ParseHeader(h + tail) == ParseHeader(h)
  {
    if Free(h, '\0') {
      CStringFree(h, tail);
      CStringFree(h, "");
      assert h + "" == h && h + CString("") == h;
      BlockInside(h, CString(tail));
    } else {
      CStringCut(h, tail);
    }
  }

  // ---- Where a header block ends ----

  /** A text without newline cannot hold the end of the blank line that ends a header. */
  lemma {:induction false} BlankAfterFields(fs: seq<Field>, tail: string)
    requires ValidFields(fs)
    ensures Find(CRLF + FieldLines(fs) + CRLF + tail, BLANK) == |FieldLines(fs)|
  {
    var s := CRLF + FieldLines(fs) + CRLF + tail;
    if fs == [] {
      assert OccursAt(s, BLANK, 0);
    } else {
      var f := fs[0];
      var line := f.key + ":" + f.value;
      var rest := CRLF + FieldLines(fs[1..]) + CRLF + tail;
      assert s == CRLF + line + rest;
      BlankNotBefore(CRLF, line, rest);
      FindShift(s, BLANK, 2 + |line|);
      assert s[2 + |line|..] == rest;
      BlankAfterFields(fs[1..], tail);
    }
  }

  lemma {:induction false} BlankNotBefore(before: string, line: string, rest: string)
    requires before == "" || before == CRLF
    requires line != "" && Free(line, '\n') && CRLF <= rest
    ensures forall j | 0 <= j < |before| + |line| :: !OccursAt(before + line + rest, BLANK, j)
  {
    var s := before + line + rest;
    var end := |before| + |line|;
    assert forall i | |before| <= i < end :: s[i] == line[i - |before|];
    assert s[end] == rest[0] == CRLF[0];
    forall j | 0 <= j < end ensures !OccursAt(s, BLANK, j) {
      if OccursAt(s, BLANK, j) {
        OccursChar(s, BLANK, j, 1);
        OccursChar(s, BLANK, j, 3);
      }
    }
  }

  /** The first blank line of a stream that starts with a header block is the block's own. */
  lemma {:induction false} HeaderEnds(start: Start, fs: seq<Field>, tail: string)
    requires ValidStart(start) && ValidFields(fs)
    ensures Find(HeaderText(start, fs) + tail, BLANK) + |BLANK| == |HeaderText(start, fs)|
  {
    hide FieldLines;
    var line := StartLine(start);
    var rest := CRLF + FieldLines(fs) + CRLF + tail;
    var s := HeaderText(start, fs) + tail;
    assert s == "" + line + rest;
    BlankNotBefore("", line, rest);
    FindShift(s, BLANK, |line|);
    assert s[|line|..] == rest;
    BlankAfterFields(fs, tail);
  }

  // ---- Names without regard to letter case ----

  /** The two cases of the k-th letter. */
  function Cases(k: nat): (char, char)
    requires k < 26
  {
    ("abcdefghijklmnopqrstuvwxyz"[k], "ABCDEFGHIJKLMNOPQRSTUVWXYZ"[k])
  }

  /** The same character, or the two cases of one letter. */
  predicate SameLetter(a: char, b: char) {
    a == b || exists k | 0 <= k < 26 :: Cases(k) == (a, b) || Cases(k) == (b, a)
  }

  predicate SameName(a: string, b: string) {
    |a| == |b| && forall i | 0 <= i < |a| :: SameLetter(a[i], b[i])
  }

  lemma {:induction false} Alphabet(k: nat)
    requires k < 26
    ensures Cases(k) == ('a' + k as char, 'A' + k as char)
  {
  }

  lemma {:induction false} FoldLetters(a: char, b: char)
    ensures LowerChar(a) == LowerChar(b) <==> SameLetter(a, b)
  {
    hide Cases;
    if LowerChar(a) == LowerChar(b) && a != b {
      var k := LowerChar(a) as int - 'a' as int;
      Alphabet(k);
    }
    if SameLetter(a, b) && a != b {
      var k :| 0 <= k < 26 && (Cases(k) == (a, b) || Cases(k) == (b, a));
      Alphabet(k);
    }
  }

  /** Two names are one exactly when they differ in the case of letters alone. */
  lemma {:induction false} FoldExactly(a: string, b: string)
    ensures Lower(a) == Lower(b) <==> SameName(a, b)
  {
    hide SameLetter, LowerChar;
    assert |Lower(a)| == |a| && |Lower(b)| == |b|;
    if |a| == |b| {
      forall i | 0 <= i < |a| ensures LowerChar(a[i]) == LowerChar(b[i]) <==> SameLetter(a[i], b[i]) {
        FoldLetters(a[i], b[i]);
      }
      var x, y := Lower(a), Lower(b);
      assert forall i | 0 <= i < |a| :: x[i] == LowerChar(a[i]) && y[i] == LowerChar(b[i]);
      if SameName(a, b) { assert x == y; }
      if x == y { assert forall i | 0 <= i < |a| :: x[i] == y[i] && LowerChar(a[i]) == LowerChar(b[i]); }
    }
  }

  /** The fields of one name, in order. */
  function Called(fs: seq<Field>, name: string): seq<Field> {
    if fs == [] then []
    else (if SameName(fs[0].key, name) then [fs[0]] else []) + Called(fs[1..], name)
  }

  lemma {:induction false} FieldMapFrom(fs: seq<Field>, acc: Fields, name: string)
    ensures var m := FieldMap(fs, acc);
            if Has(acc, name) then Has(m, name) && m[Lower(name)] == acc[Lower(name)]
            else (Has(m, name) <==> Called(fs, name) != []) && (Has(m, name) ==> m[Lower(name)] == Called(fs, name)[0])
  {
    hide Lower, SameName;
    if fs != [] {
      FoldExactly(fs[0].key, name);
      FieldMapFrom(fs[1..], Emplace(acc, fs[0].key, fs[0].value), name);
    }
  }

  /** A name has a value exactly when some field has that name in any spelling; it is the
      value of the first such field, which also keeps its spelling. */
  lemma {:induction false} FieldMapExactly(fs: seq<Field>, name: string)
    ensures var m := FieldMap(fs, map[]);
            && (Has(m, name) <==> Called(fs, name) != [])
            && (Has(m, name) ==> m[Lower(name)] == Called(fs, name)[0] && ValueOf(m, name) == Called(fs, name)[0].value)
  {
    hide Lower;
    FieldMapFrom(fs, map[], name);
  }

  // ---- What the parser makes of lines that no one would send ----

  function Blanks(n: nat): string {
    if n == 0 then "" else " " + Blanks(n - 1)
  }

  /** Words with runs of blanks between them. */
  function Spread(ws: seq<string>, gaps: seq<nat>): string
    requires |ws| == |gaps| + 1
  {
    if gaps == [] then ws[0] else ws[0] + (Blanks(gaps[0]) + Spread(ws[1..], gaps[1..]))
  }

  lemma {:induction false} BlanksDropped(n: nat, s: string)
    requires s == "" || s[0] != ' '
    ensures DropSpaces(Blanks(n) + s) == s
  {
    if n == 0 {
      assert Blanks(0) + s == s;
    } else {
      assert (Blanks(n) + s)[1..] == Blanks(n - 1) + s;
      BlanksDropped(n - 1, s);
    }
  }

  /** Words are told apart by runs of blanks of any length. */
  lemma {:induction false} WordsRead(ws: seq<string>, gaps: seq<nat>)
    requires |ws| == |gaps| + 1 && (forall i | 0 <= i < |ws| :: Free(ws[i], ' '))
    requires (forall i | 0 < i < |gaps| :: ws[i] != "") && forall i | 0 <= i < |gaps| :: gaps[i] > 0
    ensures Words(Spread(ws, gaps)) == ws
    decreases |gaps|
  {
    hide Words;
    if gaps == [] {
      WordsOfOne(ws[0]);
      assert ws == [ws[0]];
    } else {
      var more := Spread(ws[1..], gaps[1..]);
      var rest := Blanks(gaps[0] - 1) + more;
      assert Spread(ws, gaps) == ws[0] + " " + rest;
      WordsAfter(ws[0], rest);
      assert more == "" || more[0] == if ws[1] == "" then ' ' else ws[1][0];
      assert |gaps| > 1 ==> ws[1] != "";
      BlanksDropped(gaps[0] - 1, more);
      forall i | 0 < i < |gaps| - 1 ensures ws[1..][i] != "" { assert ws[1..][i] == ws[i + 1]; }
      WordsRead(ws[1..], gaps[1..]);
      assert ws == [ws[0]] + ws[1..];
    }
  }

  /** A line behind the start line, without its last character and the newline. */
  datatype Entry = Colon(field: Field) | NoColon(text: string)

  predicate ValidEntry(e: Entry) {
    match e
    case Colon(f) => ValidField(f)
    case NoColon(text) => text != "" && Free(text, ':') && Free(text, '\n') && Free(text, '\0')
  }

  function EntryText(e: Entry): string {
    match e
    case Colon(f) => f.key + ":" + f.value
    case NoColon(text) => text
  }

  function EntryLines(es: seq<Entry>, ends: seq<char>): string
    requires |es| == |ends|
  {
    if es == [] then "" else EntryText(es[0]) + [ends[0]] + "\n" + EntryLines(es[1..], ends[1..])
  }

  function FieldsIn(es: seq<Entry>): seq<Field> {
    if es == [] then [] else (if es[0].Colon? then [es[0].field] else []) + FieldsIn(es[1..])
  }

  lemma {:induction false} EntryRead(e: Entry, end: char, rest: string, acc: Fields)
    requires ValidEntry(e) && end != '\n'
    ensures ParseFields(EntryText(e) + [end] + "\n" + rest, acc)
            == ParseFields(rest, if e.Colon? then Emplace(acc, e.field.key, e.field.value) else acc)
  {
    hide ParseFields, Line, AfterLine, Emplace, Find;
    var text := EntryText(e);
    var s := (text + [end]) + "\n" + rest;
    LineOf(text + [end], rest);
    assert (text + [end])[..|text|] == text;
    FieldsStep(s, acc);
    if e.Colon? {
      FirstChar(text, ':', |e.field.key|);
      assert text[..|e.field.key|] == e.field.key && text[|e.field.key| + 1..] == e.field.value;
    } else {
      NoChar(text, ':');
    }
  }

  lemma {:induction false} EntriesRead(es: seq<Entry>, ends: seq<char>, last: char, tail: string, acc: Fields)
    requires |es| == |ends| && last != '\n' && forall i | 0 <= i < |es| :: ValidEntry(es[i]) && ends[i] != '\n'
    ensures ParseFields(EntryLines(es, ends) + [last] + "\n" + tail, acc) == FieldsResult.Parsed(FieldMap(FieldsIn(es), acc))
    decreases |es|
  {
    hide ParseFields, Line, AfterLine, Emplace, ValidEntry, EntryText;
    var s := EntryLines(es, ends) + [last] + "\n" + tail;
    if es == [] {
      assert s == [last] + "\n" + tail;
      LineOf([last], tail);
      FieldsStep(s, acc);
    } else {
      var rest := EntryLines(es[1..], ends[1..]) + [last] + "\n" + tail;
      assert s == EntryText(es[0]) + [ends[0]] + "\n" + rest;
      EntryRead(es[0], ends[0], rest, acc);
      EntriesRead(es[1..], ends[1..], last, tail, if es[0].Colon? then Emplace(acc, es[0].field.key, es[0].field.value) else acc);
      assert es[0].NoColon? ==> FieldsIn(es) == FieldsIn(es[1..]);
      assert es[0].Colon? ==> FieldsIn(es)[1..] == FieldsIn(es[1..]);
    }
  }

  /** Any words, lines and line ends: the last character of each line is dropped whatever it
      is, a line without colon is skipped, and the block is accepted exactly when its first
      line has three words. */
  lemma {:induction false} LinesRead(ws: seq<string>, gaps: seq<nat>, first: char, es: seq<Entry>, ends: seq<char>, last: char, tail: string)
    requires |ws| == |gaps| + 1 && (forall i | 0 <= i < |ws| :: Free(ws[i], ' ') && Free(ws[i], '\n'))
    requires (forall i | 0 < i < |gaps| :: ws[i] != "") && forall i | 0 <= i < |gaps| :: gaps[i] > 0
    requires |es| == |ends| && forall i | 0 <= i < |es| :: ValidEntry(es[i]) && ends[i] != '\n'
    requires first != '\n' && last != '\n'
    ensures ParseBlock(Spread(ws, gaps) + [first] + "\n" + (EntryLines(es, ends) + [last] + "\n" + tail))
            == if |ws| == 3 then Header(Start(ws[0], ws[1], ws[2]), FieldMap(FieldsIn(es), map[])) else Rejected
  {
    hide Words, ParseFields, Line, AfterLine, EntryLines, FieldMap, Spread;
    var line, rest := Spread(ws, gaps), EntryLines(es, ends) + [last] + "\n" + tail;
    SpreadFree(ws, gaps);
    LineOf(line + [first], rest);
    assert (line + [first])[..|line|] == line;
    WordsRead(ws, gaps);
    EntriesRead(es, ends, last, tail, map[]);
  }

  lemma {:induction false} SpreadFree(ws: seq<string>, gaps: seq<nat>)
    requires |ws| == |gaps| + 1 && forall i | 0 <= i < |ws| :: Free(ws[i], '\n')
    ensures Free(Spread(ws, gaps), '\n')
    decreases |gaps|
  {
    if gaps != [] {
      SpreadFree(ws[1..], gaps[1..]);
      BlanksFree(gaps[0]);
    }
  }

  lemma {:induction false} BlanksFree(n: nat)
    ensures Free(Blanks(n), '\n')
  {
    if n > 0 { BlanksFree(n - 1); }
  }

  /** What the parser is given ends at the first NUL; without one it sees everything. */
  lemma {:induction false} NulEnds(s: string, tail: string)
    ensures ParseHeader(s + "\0" + tail) == ParseHeader(s)
    ensures Free(s, '\0') ==> ParseHeader(s) == ParseBlock(s)
  {
    hide ParseBlock, Find;
    assert s + "\0" + tail == s + ("\0" + tail);
    if Free(s, '\0') {
      CStringFree(s, "\0" + tail);
      CStringFree(s, "");
      NulFirst(tail);
      assert s + "" == s;
    } else {
      CStringCut(s, "\0" + tail);
    }
  }

  lemma {:induction false} NulFirst(tail: string)
    ensures CString("\0" + tail) == "" && CString("") == ""
  {
    assert OccursAt("\0" + tail, "\0", 0);
    FindIs("\0" + tail, "\0", 0);
  }
}
