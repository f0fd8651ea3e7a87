/** One concrete input for each promise the code does not keep in general; the exact
    conditions are in the modules themselves. */
module Counterexamples {
  import opened Results
  import opened Search
  import opened Numbers
  import opened Network
  import opened HttpHeader
  import HttpFraming
  import MessageText
  import RoundTrip
  import Multipart
  import UrlEncoded
  import WhereCompiler
  import Migrations
  import OrgHierarchy
  import Permissions
  import AssignPermission
  import AsyncMutex
  import ConnectionPool

  // ---- HTTP ----

  function Announcing(text: string): Fields {
    map[Lower("Content-Length") := Field("Content-Length", text)]
  }

  lemma {:induction false} AnnouncingIsPlain(text: string)
    ensures !HttpFraming.IsChunked(Announcing(text)) && Has(Announcing(text), "Content-Length")
    ensures ValueOf(Announcing(text), "Content-Length") == text
  {
    assert |Lower("Transfer-Encoding")| != |Lower("Content-Length")|;
  }

  /** A body announced as 4294967296 bytes: nothing is delivered and the loop never ends,
      whatever the peer sends. */
  lemma {:induction false} FourGibibytesSpin(unread: string)
    ensures HttpFraming.BodyAt(Announcing("4294967296"), "", unread) == (HttpFraming.Spins, unread)
  {
    hide Lower, ParseUnsigned, Announcing;
    AnnouncingIsPlain("4294967296");
    FourGibibytesPrinted();
    assert "" + unread == unread;
  }

  lemma {:induction false} FourGibibytesPrinted()
    ensures ParseUnsigned("4294967296", 10) == Some(TWO32)
  {
    assert Digits(4294967296, 10) == "4294967296";
    assert "" + Digits(4294967296, 10) + "" == "4294967296";
    PrintThenParse("", 4294967296, 10, "");
  }

  /** Five bytes announced, three sent before the stream ends. */
  lemma {:induction false} ShortBodyPasses()
    ensures HttpFraming.BodyAt(Announcing("5"), "", "abc") == (HttpFraming.Got(Some("abc")), "")
  {
    hide Lower, ParseUnsigned, Announcing;
    AnnouncingIsPlain("5");
    FivePrinted();
    assert "" + "abc" == "abc" && "abc"[..3] == "abc" && "abc"[3..] == "";
  }

  lemma {:induction false} FivePrinted()
    ensures ParseUnsigned("5", 10) == Some(5)
  {
    assert "" + Digits(5, 10) + "" == "5";
    PrintThenParse("", 5, 10, "");
  }

  /** A chunked message without a content coding gains an empty one. */
  lemma {:induction false} EmptyCodingAppears()
    ensures var fields: Fields := map[Lower("Transfer-Encoding") := Field("Transfer-Encoding", "chunked")];
            !Has(fields, "Content-Encoding") && Has(HttpFraming.Touched(fields), "Content-Encoding")
  {
    var word := "chunked";
    assert forall i | 0 <= i < |word| :: LowerChar(word[i]) == word[i];
    assert Lower(word) == word;
    assert |Lower("Transfer-Encoding")| != |Lower("Content-Encoding")|;
  }

  /** A header block whose first line is a bare newline. */
  lemma {:induction false} EmptyFirstLine()
    ensures ParseBlock("\n\r\n\r\n").Undefined?
  {
    var s := "\n\r\n\r\n";
    assert s == "" + "\n" + "\r\n\r\n";
    LineSplit("", "\r\n\r\n");
    UndefinedExactly(s);
  }

  /** A response its own server marked as chunked. */
  lemma {:induction false} ChunkedIsLost()
    ensures var headers: Fields := map[Lower("Transfer-Encoding") := Field("Transfer-Encoding", "chunked")];
            HttpFraming.IsChunked(headers) && !HttpFraming.IsChunked(RoundTrip.Spaced(headers))
  {
    var headers: Fields := map[Lower("Transfer-Encoding") := Field("Transfer-Encoding", "chunked")];
    var word := "chunked";
    assert forall i | 0 <= i < |word| :: LowerChar(word[i]) == word[i];
    assert Lower(word) == word;
    RoundTrip.SpacedNeverChunked(headers);
  }

  lemma {:induction false} NotFoundIsRejected(tail: string)
    ensures !ParseHeader(HeaderText(Start("HTTP/1.1", "404", "Not Found"), []) + tail).Header?
  {
    var start := Start("HTTP/1.1", "404", "Not Found");
    assert start.p3[3] == ' ';
    RoundTrip.ReasonPhraseExactly(start, [], tail);
  }

  /** A blank in front of the reason phrase does no harm. */
  lemma {:induction false} BlankBeforeReason(tail: string)
    ensures ParseHeader(HeaderText(Start("HTTP/1.1", "200", " OK"), []) + tail)
            == Header(Start("HTTP/1.1", "200", "OK"), map[])
  {
    var start := Start("HTTP/1.1", "200", " OK");
    assert " OK"[1..] == "OK" && DropSpaces(" OK") == "OK";
    RoundTrip.ReasonPhraseExactly(start, [], tail);
  }

  /** A handler that announces three of five bytes. */
  lemma {:induction false} ShortLengthField(start: Start)
    ensures var l := RoundTrip.Letter(start, Announcing("3"), "abcde");
            RoundTrip.ArrivesAs(l)
            == (HttpFraming.Message(HttpFraming.Received(start, RoundTrip.Spaced(Announcing("3")), Some("abc"))), "de")
  {
    hide Lower, ParseUnsigned;
    ThreePrinted();
    assert " " + "3" == " 3";
    assert RoundTrip.Spaced(Announcing("3")) == Announcing(" 3");
    AnnouncingIsPlain(" 3");
    assert "abcde"[..3] == "abc" && "abcde"[3..] == "de";
  }

  lemma {:induction false} ThreePrinted()
    ensures ParseUnsigned(" 3", 10) == Some(3)
  {
    assert " " + Digits(3, 10) + "" == " 3";
    PrintThenParse(" ", 3, 10, "");
  }

  /** A header of 10244 bytes, delivered byte by byte. */
  lemma {:induction false} LongHeaderIsMissed()
    ensures var unread := seq(10240, i => 'x') + BLANK;
            !forall plan | NoFault(plan) :: Contains(Filled("", unread, plan, BLANK), BLANK)
  {
    var filler := seq(10240, i => 'x');
    var unread := filler + BLANK;
    FirstAfterFiller(filler, BLANK, "");
    assert "" + unread == unread && unread + "" == unread;
    MessageText.HeaderFoundExactly("", unread);
  }

  /** A size line of 10240 zeros. */
  lemma {:induction false} LongSizeLine(rest: string)
    ensures !HttpFraming.LinesFit(seq(10240, i => '0') + CRLF + rest)
  {
    FirstAfterFiller(seq(10240, i => '0'), CRLF, rest);
  }

  lemma {:induction false} FirstAfterFiller(filler: string, p: string, rest: string)
    requires p != "" && forall i | 0 <= i < |filler| :: filler[i] != p[0]
    ensures Find(filler + p + rest, p) == |filler|
  {
    var s := filler + p + rest;
    assert s[|filler|..|filler| + |p|] == p;
    forall j | 0 <= j < |filler| ensures !OccursAt(s, p, j) {
      if OccursAt(s, p, j) { OccursChar(s, p, j, 0); }
    }
    FindIs(s, p, |filler|);
  }

  // ---- Multipart ----

  /** A content that starts with `--b` and whose delimiter falls into the second block. */
  lemma {:induction false} StraddlingDelimiter()
    ensures var rest := "--b" + seq(10240, i => 'x') + "\r\n--b";
            !Multipart.DelimiterInTime(rest, "b") && Contains(rest, Multipart.Split("b"))
  {
    var filler := "--b" + seq(10240, i => 'x');
    var rest := filler + "\r\n--b";
    assert Multipart.Split("b") == "--b" && Multipart.Delimiter("b") == "\r\n--b";
    FirstAfterFiller(filler, "\r\n--b", "");
    assert rest + "" == rest;
    assert rest[0..3] == "--b";
    assert OccursAt(rest, "--b", 0);
    FindIs(rest, "--b", 0);
  }

  /** Bytes without a boundary: fewer than six make the tail length wrap, more are read for ever. */
  lemma {:induction false} NoBoundarySpins(n: nat, r: Multipart.Streamed, written: string, consumed: int)
    requires Multipart.Outcome(seq(n, i => 'x'), "b", r, written, consumed)
    ensures r == if n < 6 then Multipart.Underflows else Multipart.Spins
  {
    var rest := seq(n, i => 'x');
    var first := rest[..Min(10240, n)];
    if Contains(rest, "--b") { OccursChar(rest, "--b", Find(rest, "--b"), 0); }
    if Contains(first, "--b") { OccursChar(first, "--b", Find(first, "--b"), 0); }
    assert Multipart.Split("b") == "--b";
  }

  /** An empty stream makes the tail length wrap. */
  lemma {:induction false} EmptyStreamWraps(r: Multipart.Streamed, written: string, consumed: int)
    requires Multipart.Outcome("", "b", r, written, consumed)
    ensures r.Underflows?
  {
    assert Multipart.Split("b") == "--b";
  }

  // ---- Parameters ----

  lemma {:induction false} AmpersandInKey()
    ensures var pairs := [UrlEncoded.Pair("a&b", "c")];
            UrlEncoded.ParsePairs(UrlEncoded.PrintPairs(pairs)) != pairs
  {
    var pairs := [UrlEncoded.Pair("a&b", "c")];
    assert pairs[0].key[1] == '&';
    UrlEncoded.PairsRoundTrip(pairs);
  }

  lemma {:induction false} ListMeetsText()
    ensures UrlEncoded.StoreAll(map["a[]" := UrlEncoded.Text("x")], [UrlEncoded.Pair("a[]", "y")])
            == (map["a[]" := UrlEncoded.Text("x")], false)
  {
    assert "a[]"[1..] == "[]";
  }

  // ---- SQL ----

  /** DELETE with one condition and a global one deletes rows the query would not show. */
  lemma {:induction false} GlobalConditionDropped() returns (row: WhereCompiler.Row)
    ensures var mine := WhereCompiler.Condition("id", "=", WhereCompiler.Value("1"));
            var everywhere := WhereCompiler.Condition("deleted_at", "=", WhereCompiler.Null);
            && WhereCompiler.Meaning(row, WhereCompiler.CompileStatementWhere([[mine]])) == Some(WhereCompiler.True)
            && WhereCompiler.Meaning(row, WhereCompiler.CompileWhere([[mine]], [everywhere], true)) == Some(WhereCompiler.False)
  {
    var mine := WhereCompiler.Condition("id", "=", WhereCompiler.Value("1"));
    var everywhere := WhereCompiler.Condition("deleted_at", "=", WhereCompiler.Null);
    row := a => if a == WhereCompiler.CompileCondition(mine) then WhereCompiler.True else WhereCompiler.False;
    WhereCompiler.StatementMeaning(row, [[mine]]);
    WhereCompiler.WhereMeansIntended(row, [[mine]], [everywhere]);
  }

  lemma {:induction false} EmptyGroupIsNoSql(row: WhereCompiler.Row)
    ensures WhereCompiler.Meaning(row, WhereCompiler.CompileWhere([[]], [], true)) == None
  {
    WhereCompiler.WhereMeansIntended(row, [[]], []);
  }

  /** `x != NULL` is printed as the test for NULL. */
  lemma {:induction false} NotEqualNull(compare: WhereCompiler.Compare)
    ensures var values: WhereCompiler.Values := s => None;
            var c := WhereCompiler.Condition("x", "!=", WhereCompiler.Null);
            && WhereCompiler.Evaluate(values, compare, WhereCompiler.CompileCondition(c)) == WhereCompiler.True
            && WhereCompiler.NullTest("!=", true) == WhereCompiler.False
  {
    assert WhereCompiler.Upper("!=") == "!=" && WhereCompiler.Upper("IS") == "IS";
  }

  /** The insert fails once; the next call runs the migration again. */
  lemma {:induction false} MigrationRunsTwice()
    ensures var masters, lost := [["m"]], Migrations.Faults(false, false, false, i => Migrations.InsertFails);
            var calls := [Migrations.Call(0, 1, lost), Migrations.Call(0, 1, Migrations.Smooth())];
            Migrations.Run(masters, calls).completed == ["m", "m"]
  {
    var masters, lost := [["m"]], Migrations.Faults(false, false, false, i => Migrations.InsertFails);
    var calls := [Migrations.Call(0, 1, lost), Migrations.Call(0, 1, Migrations.Smooth())];
    assert masters[0][..1] == ["m"];
    var one := [calls[0]];
    assert calls[..|calls| - 1] == one && one[..|one| - 1] == [];
    var first := Migrations.Run(masters, one);
    assert first == Migrations.Step(masters, Migrations.Run(masters, []), one[0]);
    assert first == Migrations.State(true, [], ["m"], ["m"]);
    var second := Migrations.Noted(first, "m", 1);
    assert Migrations.Walk(second, ["m"], 1, 1, Migrations.Smooth().at) == second;
    assert Migrations.Step(masters, first, calls[1]) == second;
  }

  // ---- Organisations and permissions ----

  /** The grandchild of the root, once its parent is deleted. */
  lemma {:induction false} OrphanOfTheRoot(code: string, db: Permissions.Rbac, admin: nat)
    requires Permissions.FlagsAreBits(db.grants)
    ensures var ops := [OrgHierarchy.Create(1, true, OrgHierarchy.Nowhere), OrgHierarchy.Create(2, true, OrgHierarchy.Nowhere),
                        OrgHierarchy.Delete(2, true, OrgHierarchy.Nowhere)];
            var h := OrgHierarchy.Run(OrgHierarchy.Initial(), ops);
            OrgHierarchy.Deletable(h.orgs, 3) && !Permissions.Granted(db, h.rows, admin, code, 2)
  {
    var a, b, c := OrgHierarchy.Create(1, true, OrgHierarchy.Nowhere), OrgHierarchy.Create(2, true, OrgHierarchy.Nowhere),
                   OrgHierarchy.Delete(2, true, OrgHierarchy.Nowhere);
    var ops := [a, b, c];
    var h1 := OrgHierarchy.Step(OrgHierarchy.Initial(), a);
    var h2 := OrgHierarchy.Step(h1, b);
    var h3 := OrgHierarchy.Step(h2, c);
    assert ops[1..] == [b, c] && [b, c][1..] == [c] && [c][1..] == [];
    assert OrgHierarchy.Run(OrgHierarchy.Initial(), ops) == OrgHierarchy.Run(h1, [b, c]) == OrgHierarchy.Run(h2, [c]) == h3;
    OrgHierarchy.ClosureFaithful(ops);
    assert OrgHierarchy.Deletable(h3.orgs, 3) && h3.orgs[3].parent == Some(2) && !OrgHierarchy.Live(h3.orgs, 2);
    Permissions.OrphansStay(h3, code, 3);
  }

  /** The root and one child. */
  ghost function OneChild(): OrgHierarchy.Db {
    OrgHierarchy.Run(OrgHierarchy.Initial(), [OrgHierarchy.Create(1, true, OrgHierarchy.Nowhere)])
  }

  lemma {:induction false} OneChildFacts()
    ensures OrgHierarchy.Faithful(OneChild())
    ensures OneChild().orgs == map[1 := OrgHierarchy.Org(None, true), 2 := OrgHierarchy.Org(Some(1), true)]
  {
    hide OrgHierarchy.Faithful, OrgHierarchy.NewRows;
    var a := OrgHierarchy.Create(1, true, OrgHierarchy.Nowhere);
    assert [a][1..] == [];
    assert OneChild() == OrgHierarchy.Step(OrgHierarchy.Initial(), a);
    OrgHierarchy.ClosureFaithful([a]);
  }

  /** The parent passes the check of a create, is deleted, and then the create commits. */
  lemma {:induction false} CommitUnderTheDead()
    ensures var h := OrgHierarchy.DeleteCommits(OneChild(), 2);
            OrgHierarchy.Faithful(h) && !OrgHierarchy.Faithful(OrgHierarchy.CreateCommits(h, 2))
  {
    hide OrgHierarchy.Faithful, OneChild, OrgHierarchy.Without;
    OneChildFacts();
    var h := OrgHierarchy.DeleteCommits(OneChild(), 2);
    OrgHierarchy.DeleteKeeps(OneChild(), 2);
    assert OrgHierarchy.Above(h.orgs, 1, 0) == Some(1);
    assert OrgHierarchy.Above(h.orgs, 2, 1) == Some(1);
    OrgHierarchy.CommitExactly(h, 2);
  }

  /** Two roles carry the code for the admin of the root, one with the flag at 1, one at 2. */
  function TwoFlags(code: string): Permissions.Rbac {
    var role := Permissions.Role(1, true);
    Permissions.Rbac(map[0 := role, 1 := role], map[0 := Permissions.Admin(1, true)], map[0 := code], {(0, 0), (1, 0)},
                     map[Permissions.Key(0, 0) := Permissions.Flags(1, 1), Permissions.Key(1, 0) := Permissions.Flags(1, 2)])
  }

  /** The larger flag takes the child organisation away that the smaller one gives. */
  lemma {:induction false} LargeFlagOutranks(code: string)
    ensures Permissions.Allowed(TwoFlags(code), OneChild().orgs, 0, code, 2)
    ensures !Permissions.Granted(TwoFlags(code), OneChild().rows, 0, code, 2)
  {
    hide OrgHierarchy.Faithful, Permissions.Granted, OneChild;
    OneChildFacts();
    assert OrgHierarchy.Above(OneChild().orgs, 1, 0) == Some(1);
    assert OrgHierarchy.Above(OneChild().orgs, 2, 1) == Some(1);
    assert Permissions.Carries(TwoFlags(code), Permissions.Key(0, 0), 0, code);
    assert Permissions.Carries(TwoFlags(code), Permissions.Key(1, 0), 0, code);
    Permissions.CanExactly(TwoFlags(code), OneChild(), 0, code, 2);
  }

  /** Two requests for the same permission the role does not own. */
  lemma {:induction false} SameRequestTwice()
    ensures var models := map[7 := AssignPermission.Model(false, 0, 0, false)];
            var q := AssignPermission.Request(7, None, None);
            !AssignPermission.GrantAll(map[], models, 0, [q, q]).1
  {
    var models := map[7 := AssignPermission.Model(false, 0, 0, false)];
    var q := AssignPermission.Request(7, None, None);
    assert [q, q][0].id == [q, q][1].id == 7;
    assert !AssignPermission.Clear(map[], models, 0, [q, q], 1);
    AssignPermission.ThrowsExactly(map[], models, 0, [q, q]);
  }

  /** A grant flag stored as 2 stays when 1 is asked for. */
  lemma {:induction false} TwoStaysTwo()
    ensures var grants := map[Permissions.Key(0, 7) := Permissions.Flags(2, 0)];
            var models := map[7 := AssignPermission.Model(true, 1, 0, false)];
            AssignPermission.Grant(grants, models, 0, AssignPermission.Request(7, Some(1), None)) == Ok(grants)
  {
    var grants := map[Permissions.Key(0, 7) := Permissions.Flags(2, 0)];
    assert grants[Permissions.Key(0, 7) := Permissions.Flags(2, 0)] == grants;
  }

  // ---- The pool ----

  /** A hundred and one clients make the pool larger than its `max_` of a hundred. */
  lemma {:induction false} PoolPassesItsMaximum()
    ensures ConnectionPool.ValidRun(ConnectionPool.Initial(), ConnectionPool.Rush(101))
    ensures ConnectionPool.Size(ConnectionPool.After(ConnectionPool.Initial(), ConnectionPool.Rush(101))) == 101
  {
    hide ConnectionPool.Rush, ConnectionPool.After;
    ConnectionPool.RushGrows(101);
  }

  // ---- The mutex ----

  /** Task 0 holds the mutex, task 1 waits, task 2 unlocks what it does not own. */
  lemma {:induction false} StrayUnlock()
    ensures var s := AsyncMutex.State(true, [1], map[0 := AsyncMutex.Holding, 1 := AsyncMutex.Waiting, 2 := AsyncMutex.Done],
                                      [2, 0, 1], [2, 0], 1);
            AsyncMutex.Inv(s) && !AsyncMutex.AtMostOneOwner(AsyncMutex.Next(s, AsyncMutex.RunUnlock(2)))
  {
    var s := AsyncMutex.State(true, [1], map[0 := AsyncMutex.Holding, 1 := AsyncMutex.Waiting, 2 := AsyncMutex.Done],
                              [2, 0, 1], [2, 0], 1);
    assert AsyncMutex.Owns(s, 0);
    assert AsyncMutex.Inv(s);
    var n := AsyncMutex.Next(s, AsyncMutex.RunUnlock(2));
    assert AsyncMutex.Owns(n, 0) && AsyncMutex.Owns(n, 1);
  }

  /** Nobody waits, and the next `lock` is granted beside the holder. */
  lemma {:induction false} StrayUnlockThenLock()
    ensures var s := AsyncMutex.State(true, [], map[0 := AsyncMutex.Holding, 2 := AsyncMutex.Done], [2, 0], [2, 0], 1);
            var n := AsyncMutex.Next(s, AsyncMutex.RunUnlock(2));
            && AsyncMutex.Inv(s) && AsyncMutex.AtMostOneOwner(n)
            && AsyncMutex.Enabled(n, AsyncMutex.Lock(3)) && !AsyncMutex.AtMostOneOwner(AsyncMutex.Next(n, AsyncMutex.Lock(3)))
  {
    var s := AsyncMutex.State(true, [], map[0 := AsyncMutex.Holding, 2 := AsyncMutex.Done], [2, 0], [2, 0], 1);
    assert AsyncMutex.Owns(s, 0);
    assert AsyncMutex.Inv(s);
    var n := AsyncMutex.Next(s, AsyncMutex.RunUnlock(2));
    assert forall t | AsyncMutex.Owns(n, t) :: t == 0;
    var e := AsyncMutex.Next(n, AsyncMutex.Lock(3));
    assert AsyncMutex.Owns(e, 0) && AsyncMutex.Owns(e, 3);
  }
}
