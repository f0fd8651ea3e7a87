/** The WHERE clause of the query builder: calls build groups of conditions, `compile_where`
    prints them, and SQL reads the text back with AND binding tighter than OR. */
module WhereCompiler {
  import opened Results

  // ---- Conditions ----

  datatype Operand = Null | Value(text: string)

  datatype Condition = Condition(first: string, operator: string, second: Operand)

  /** A printed condition. */
  datatype Atom = Atom(first: string, operator: string, second: Operand)

  datatype Token = WHERE | LPAREN | RPAREN | AND | OR | Test(atom: Atom)

  /** `condition::compile`: against NULL the operator becomes IS, whatever it was. */
  function CompileCondition(c: Condition): Atom {
    Atom(c.first, if c.second.Null? then "IS" else c.operator, c.second)
  }

  // ---- Printing ----

  /** `utils::separate_with` on texts already compiled. */
  function Joined(texts: seq<seq<Token>>, separator: Token): seq<Token> {
    if texts == [] then []
    else if |texts| == 1 then texts[0]
    else texts[0] + [separator] + Joined(texts[1..], separator)
  }

  method SeparateWith(texts: seq<seq<Token>>, separator: Token) returns (result: seq<Token>)
    ensures result == Joined(texts, separator)
  {
    result := [];
    for i := 0 to |texts|
      invariant result == Joined(texts[..i], separator)
    {
      JoinedAppend(texts[..i], separator, texts[i]);
      assert texts[..i + 1] == texts[..i] + [texts[i]];
      if i > 0 { result := result + [separator]; }
      result := result + texts[i];
    }
    assert texts[..|texts|] == texts;
  }

  lemma {:induction false} JoinedAppend(texts: seq<seq<Token>>, separator: Token, last: seq<Token>)
    ensures Joined(texts + [last], separator)
            == if texts == [] then last else Joined(texts, separator) + [separator] + last
  {
    if texts == [] {
      assert texts + [last] == [last];
    } else {
      assert (texts + [last])[1..] == texts[1..] + [last];
      JoinedAppend(texts[1..], separator, last);
      if |texts| > 1 {
        var rest := Joined(texts[1..], separator);
        assert texts[0] + [separator] + (rest + [separator] + last) == texts[0] + [separator] + rest + [separator] + last;
      }
    }
  }

  function Tests(cs: seq<Condition>): seq<seq<Token>> {
    seq(|cs|, i requires 0 <= i < |cs| => [Test(CompileCondition(cs[i]))])
  }

  /** `condition_group::compile` */
  function CompileGroup(g: seq<Condition>): seq<Token> {
    [LPAREN] + Joined(Tests(g), AND) + [RPAREN]
  }

  function GroupTexts(groups: seq<seq<Condition>>): seq<seq<Token>> {
    seq(|groups|, i requires 0 <= i < |groups| => CompileGroup(groups[i]))
  }

  function CompileGroups(groups: seq<seq<Condition>>): seq<Token> {
    Joined(GroupTexts(groups), OR)
  }

  /** `compile_where`; `keyword` is the template argument that asks for the word WHERE. */
  function CompileWhere(groups: seq<seq<Condition>>, globals: seq<Condition>, keyword: bool): seq<Token> {
    (if (groups != [] || globals != []) && keyword then [WHERE] else []) +
    GroupPart(groups, globals) +
    GlobalPart(groups, globals)
  }

  function GroupPart(groups: seq<seq<Condition>>, globals: seq<Condition>): seq<Token> {
    if groups == [] then []
    else if globals == [] || |groups| == 1 then CompileGroups(groups)
    else [LPAREN] + CompileGroups(groups) + [RPAREN]
  }

  function GlobalPart(groups: seq<seq<Condition>>, globals: seq<Condition>): seq<Token> {
    if globals == [] then []
    else if groups == [] then CompileGroup(globals)
    else [AND] + CompileGroup(globals)
  }

  /** The WHERE part of `delete_statement::compile` and `update_statement::compile`. */
  function CompileStatementWhere(groups: seq<seq<Condition>>): seq<Token> {
    if groups == [] then [] else [WHERE] + CompileGroups(groups)
  }

  // ---- The builder ----

  datatype Call = Where(cs: seq<Condition>) | OrWhere(cs: seq<Condition>) | GlobalWhere(cs: seq<Condition>)

  /** `enable_where_condition` */
  class Builder {
    var groups: seq<seq<Condition>>
    var globals: seq<Condition>

    constructor ()
      ensures groups == [] && globals == []
    {
      groups, globals := [], [];
    }

    method Apply(call: Call)
      modifies this
      ensures (groups, globals) == AfterCall(old(groups), old(globals), call)
    {
      match call
      case Where(cs) =>
        if groups == [] { groups := [[]]; }
        var last := |groups| - 1;
        assert old(groups) == [] ==> groups[last] + cs == cs;
        groups := groups[last := groups[last] + cs];
        assert old(groups) == [] ==> groups == [cs];
      case OrWhere(cs) =>
        groups := groups + [[]];
        var last := |groups| - 1;
        assert groups[last] + cs == cs;
        groups := groups[last := groups[last] + cs];
        assert groups == old(groups) + [cs];
      case GlobalWhere(cs) =>
        globals := globals + cs;
    }

    /** `compile_where` */
    method Compile(keyword: bool) returns (result: seq<Token>)
      ensures result == CompileWhere(groups, globals, keyword)
    {
      result := if (groups != [] || globals != []) && keyword then [WHERE] else [];
      var front, back := [], [];
      if groups != [] {
        front := SeparateWith(GroupTexts(groups), OR);
        if globals != [] && |groups| != 1 { front := [LPAREN] + front + [RPAREN]; }
      }
      if globals != [] {
        var text := SeparateWith(Tests(globals), AND);
        back := [LPAREN] + text + [RPAREN];
        if groups != [] { back := [AND] + back; }
      }
      assert front == GroupPart(groups, globals) && back == GlobalPart(groups, globals);
      result := result + front + back;
    }

    /** What UPDATE and DELETE print instead. */
    method CompileForStatement() returns (result: seq<Token>)
      ensures result == CompileStatementWhere(groups)
    {
      result := [];
      if groups != [] {
        var text := SeparateWith(GroupTexts(groups), OR);
        result := [WHERE] + text;
      }
    }
  }

  function AfterCall(groups: seq<seq<Condition>>, globals: seq<Condition>, call: Call): (seq<seq<Condition>>, seq<Condition>) {
    match call
    case Where(cs) => (if groups == [] then [cs] else groups[|groups| - 1 := groups[|groups| - 1] + cs], globals)
    case OrWhere(cs) => (groups + [cs], globals)
    case GlobalWhere(cs) => (groups, globals + cs)
  }

  function Built(calls: seq<Call>): (seq<seq<Condition>>, seq<Condition>) {
    if calls == [] then ([], [])
    else
      var (groups, globals) := Built(calls[..|calls| - 1]);
      AfterCall(groups, globals, calls[|calls| - 1])
  }

  predicate NoEmptyGroup(groups: seq<seq<Condition>>) {
    forall i | 0 <= i < |groups| :: groups[i] != []
  }

  lemma {:induction false} BuiltGroups(calls: seq<Call>)
    requires forall i | 0 <= i < |calls| :: calls[i].cs != []
    ensures NoEmptyGroup(Built(calls).0)
  {
    if calls != [] {
      BuiltGroups(calls[..|calls| - 1]);
    }
  }

  // ---- SQL's reading of the text, in three-valued logic ----

  datatype Truth = False | Unknown | True

  function Rank(t: Truth): nat {
    if t == False then 0 else if t == Unknown then 1 else 2
  }

  function And3(a: Truth, b: Truth): Truth { if Rank(a) <= Rank(b) then a else b }

  function Or3(a: Truth, b: Truth): Truth { if Rank(a) <= Rank(b) then b else a }

  /** How a row answers each printed condition. */
  type Row = Atom -> Truth

  datatype Reading = Wrong | Read(truth: Truth, rest: seq<Token>)

  function ReadPrimary(row: Row, ts: seq<Token>): (r: Reading)
    ensures r.Read? ==> |r.rest| < |ts|
    decreases |ts|, 0
  {
    if ts == [] then Wrong
    else if ts[0].Test? then Read(row(ts[0].atom), ts[1..])
    else if ts[0].LPAREN? then
      var inner := ReadOr(row, ts[1..]);
      if inner.Read? && inner.rest != [] && inner.rest[0].RPAREN? then Read(inner.truth, inner.rest[1..]) else Wrong
    else Wrong
  }

  function ReadAnd(row: Row, ts: seq<Token>): (r: Reading)
    ensures r.Read? ==> |r.rest| < |ts|
    decreases |ts|, 1
  {
    var left := ReadPrimary(row, ts);
    if left.Read? && left.rest != [] && left.rest[0].AND? then
      var right := ReadAnd(row, left.rest[1..]);
      if right.Read? then Read(And3(left.truth, right.truth), right.rest) else Wrong
    else left
  }

  function ReadOr(row: Row, ts: seq<Token>): (r: Reading)
    ensures r.Read? ==> |r.rest| < |ts|
    decreases |ts|, 2
  {
    var left := ReadAnd(row, ts);
    if left.Read? && left.rest != [] && left.rest[0].OR? then
      var right := ReadOr(row, left.rest[1..]);
      if right.Read? then Read(Or3(left.truth, right.truth), right.rest) else Wrong
    else left
  }

  /** The predicate a clause states: no clause holds of every row; `None` is a syntax error. */
  function Meaning(row: Row, ts: seq<Token>): Option<Truth> {
    if ts == [] then Some(True)
    else if !ts[0].WHERE? then None
    else
      var r := ReadOr(row, ts[1..]);
      if r.Read? && r.rest == [] then Some(r.truth) else None
  }

  // ---- What was meant ----

  function AllOf(row: Row, cs: seq<Condition>): Truth {
    if cs == [] then True else And3(row(CompileCondition(cs[0])), AllOf(row, cs[1..]))
  }

  function AnyOf(row: Row, groups: seq<seq<Condition>>): Truth {
    if groups == [] then False else Or3(AllOf(row, groups[0]), AnyOf(row, groups[1..]))
  }

  /** (OR over groups of AND) AND (AND of globals); without groups, the globals alone. */
  function Intended(row: Row, groups: seq<seq<Condition>>, globals: seq<Condition>): Truth {
    And3(if groups == [] then True else AnyOf(row, groups), AllOf(row, globals))
  }

  /** The text before `rest` is complete: `rest` cannot continue it. */
  predicate Ends(rest: seq<Token>, orMayFollow: bool) {
    rest == [] || (!rest[0].AND? && (orMayFollow || !rest[0].OR?))
  }

  lemma {:induction false} ReadConditions(row: Row, cs: seq<Condition>, rest: seq<Token>)
    requires cs != [] && Ends(rest, true)
    ensures ReadAnd(row, Joined(Tests(cs), AND) + rest) == Read(AllOf(row, cs), rest)
    decreases |cs|
  {
    var ts := Joined(Tests(cs), AND) + rest;
    var first := Test(CompileCondition(cs[0]));
    if |cs| == 1 {
      assert ts == [first] + rest;
      assert ts[1..] == rest;
      assert AllOf(row, cs[1..]) == True;
    } else {
      var more := Joined(Tests(cs[1..]), AND) + rest;
      assert Tests(cs)[1..] == Tests(cs[1..]);
      assert ts == [first, AND] + more;
      assert ts[1..] == [AND] + more && ts[1..][1..] == more;
      ReadConditions(row, cs[1..], rest);
    }
  }

  lemma {:induction false} ReadParens(row: Row, cs: seq<Condition>, rest: seq<Token>)
    requires cs != []
    ensures ReadPrimary(row, CompileGroup(cs) + rest) == Read(AllOf(row, cs), rest)
  {
    var ts := CompileGroup(cs) + rest;
    var inner := Joined(Tests(cs), AND) + ([RPAREN] + rest);
    assert ts == [LPAREN] + inner;
    assert ts[1..] == inner;
    ReadConditions(row, cs, [RPAREN] + rest);
    assert ([RPAREN] + rest)[1..] == rest;
  }

  /** An empty group prints as `()`, which SQL does not read. */
  lemma {:induction false} ReadEmptyParens(row: Row, rest: seq<Token>)
    ensures ReadPrimary(row, CompileGroup([]) + rest).Wrong?
  {
    var ts := CompileGroup([]) + rest;
    assert Joined(Tests([]), AND) == [];
    assert ts == [LPAREN, RPAREN] + rest;
    assert ts[1..][0] == RPAREN;
    assert ReadPrimary(row, ts[1..]).Wrong?;
    assert ReadAnd(row, ts[1..]).Wrong?;
  }

  lemma {:induction false} ReadGroups(row: Row, groups: seq<seq<Condition>>, rest: seq<Token>)
    requires groups != [] && Ends(rest, false)
    ensures ReadOr(row, CompileGroups(groups) + rest)
            == if NoEmptyGroup(groups) then Read(AnyOf(row, groups), rest) else Wrong
    decreases |groups|
  {
    var g := groups[0];
    var more := CompileGroups(groups[1..]) + rest;
    var after := if |groups| == 1 then rest else [OR] + more;
    GroupsText(groups, rest);
    if g == [] {
      ReadEmptyParens(row, after);
    } else {
      ReadParens(row, g, after);
      if |groups| == 1 {
        assert AnyOf(row, groups[1..]) == False;
      } else {
        assert after[1..] == more;
        ReadGroups(row, groups[1..], rest);
        NoEmptyTail(groups);
      }
    }
  }

  lemma {:induction false} GroupsText(groups: seq<seq<Condition>>, rest: seq<Token>)
    requires groups != []
    ensures CompileGroups(groups) + rest
            == CompileGroup(groups[0]) + if |groups| == 1 then rest else [OR] + (CompileGroups(groups[1..]) + rest)
  {
    assert GroupTexts(groups)[1..] == GroupTexts(groups[1..]);
    var g, more := CompileGroup(groups[0]), CompileGroups(groups[1..]);
    assert g + [OR] + more + rest == g + ([OR] + (more + rest));
  }

  lemma {:induction false} NoEmptyTail(groups: seq<seq<Condition>>)
    requires groups != [] && groups[0] != []
    ensures NoEmptyGroup(groups) <==> NoEmptyGroup(groups[1..])
  {
    assert forall i | 0 <= i < |groups| - 1 :: groups[1..][i] == groups[i + 1];
    assert forall i | 0 < i < |groups| :: groups[i] == groups[1..][i - 1];
  }

  /** A single group may also stand in a conjunction. */
  lemma {:induction false} ReadOneGroup(row: Row, g: seq<Condition>, rest: seq<Token>)
    ensures ReadPrimary(row, CompileGroups([g]) + rest)
            == if g != [] then Read(AllOf(row, g), rest) else Wrong
  {
    assert CompileGroups([g]) == CompileGroup(g);
    if g == [] { ReadEmptyParens(row, rest); } else { ReadParens(row, g, rest); }
  }

  /** The condition without the keyword, as `if_format` prints it, is read back as what was
      meant, exactly when no group is empty. */
  lemma {:induction false} ConditionMeansIntended(row: Row, groups: seq<seq<Condition>>, globals: seq<Condition>)
    requires groups != [] || globals != []
    ensures ReadOr(row, CompileWhere(groups, globals, false))
            == if NoEmptyGroup(groups) then Read(Intended(row, groups, globals), []) else Wrong
  {
    BareText(groups, globals);
    if groups == [] {
      ReadGlobals(row, globals);
    } else if globals == [] {
      ReadGroups(row, groups, []);
    } else {
      ConjunctionMeansIntended(row, groups, globals);
    }
  }

  lemma {:induction false} BareText(groups: seq<seq<Condition>>, globals: seq<Condition>)
    ensures CompileWhere(groups, globals, false) == GroupPart(groups, globals) + GlobalPart(groups, globals)
    ensures groups == [] && globals != [] ==> CompileWhere(groups, globals, false) == CompileGroup(globals) + []
    ensures globals == [] && groups != [] ==> CompileWhere(groups, globals, false) == CompileGroups(groups) + []
  {
    hide CompileGroups, CompileGroup;
  }

  lemma {:induction false} ReadGlobals(row: Row, globals: seq<Condition>)
    requires globals != []
    ensures ReadOr(row, CompileGroup(globals) + []) == Read(AllOf(row, globals), [])
  {
    hide CompileGroup, ReadPrimary;
    ReadParens(row, globals, []);
    assert ReadAnd(row, CompileGroup(globals) + []) == Read(AllOf(row, globals), []);
  }

  lemma {:induction false} ConjunctionMeansIntended(row: Row, groups: seq<seq<Condition>>, globals: seq<Condition>)
    requires groups != [] && globals != []
    ensures ReadOr(row, GroupPart(groups, globals) + GlobalPart(groups, globals))
            == if NoEmptyGroup(groups) then Read(Intended(row, groups, globals), []) else Wrong
  {
    hide CompileGroup, GroupPart, ReadOr, ReadPrimary, AnyOf, AllOf;
    var front, rest := GroupPart(groups, globals), [AND] + CompileGroup(globals);
    FrontRead(row, groups, globals, rest);
    ReadSecond(row, front + rest, globals);
  }

  lemma {:induction false} NothingToPrint()
    ensures CompileWhere([], [], true) == []
    ensures forall row: Row :: Intended(row, [], []) == True
  {
  }

  /** The same for the whole clause; without any condition there is no clause. */
  lemma {:induction false} WhereMeansIntended(row: Row, groups: seq<seq<Condition>>, globals: seq<Condition>)
    ensures Meaning(row, CompileWhere(groups, globals, true))
            == if NoEmptyGroup(groups) then Some(Intended(row, groups, globals)) else None
  {
    hide ReadOr, Intended, GroupPart, GlobalPart;
    if groups == [] && globals == [] {
      NothingToPrint();
    } else {
      var bare := CompileWhere(groups, globals, false);
      Regroup([WHERE], GroupPart(groups, globals), GlobalPart(groups, globals));
      assert bare == GroupPart(groups, globals) + GlobalPart(groups, globals);
      ConditionMeansIntended(row, groups, globals);
    }
  }

  lemma {:induction false} Regroup(a: seq<Token>, b: seq<Token>, c: seq<Token>)
    requires |a| == 1
    ensures a + b + c != [] && (a + b + c)[0] == a[0] && (a + b + c)[1..] == b + c
  {
  }

  /** The groups, alone or in parentheses, are one operand of the AND that follows. */
  lemma {:induction false} FrontRead(row: Row, groups: seq<seq<Condition>>, globals: seq<Condition>, rest: seq<Token>)
    requires groups != [] && globals != []
    ensures ReadPrimary(row, GroupPart(groups, globals) + rest)
            == if NoEmptyGroup(groups) then Read(AnyOf(row, groups), rest) else Wrong
  {
    if |groups| == 1 {
      assert groups == [groups[0]];
      assert AnyOf(row, groups[1..]) == False;
      ReadOneGroup(row, groups[0], rest);
    } else {
      ReadEnclosed(row, groups, rest);
    }
  }

  lemma {:induction false} ReadEnclosed(row: Row, groups: seq<seq<Condition>>, rest: seq<Token>)
    requires groups != []
    ensures ReadPrimary(row, [LPAREN] + CompileGroups(groups) + [RPAREN] + rest)
            == if NoEmptyGroup(groups) then Read(AnyOf(row, groups), rest) else Wrong
  {
    var text, close := CompileGroups(groups), [RPAREN] + rest;
    assert [LPAREN] + text + [RPAREN] + rest == [LPAREN] + text + close;
    Regroup([LPAREN], text, close);
    ReadGroups(row, groups, close);
    assert close[1..] == rest;
  }

  /** An operand followed by AND and the parenthesised globals. */
  lemma {:induction false} ReadSecond(row: Row, ts: seq<Token>, globals: seq<Condition>)
    requires globals != []
    requires ReadPrimary(row, ts).Read? ==> ReadPrimary(row, ts).rest == [AND] + CompileGroup(globals)
    ensures ReadOr(row, ts) == if ReadPrimary(row, ts).Read?
                               then Read(And3(ReadPrimary(row, ts).truth, AllOf(row, globals)), []) else Wrong
  {
    var tail := CompileGroup(globals);
    ReadParens(row, globals, []);
    assert ([AND] + tail)[1..] == tail == tail + [];
    assert ReadAnd(row, tail) == Read(AllOf(row, globals), []);
  }

  /** For every sequence of builder calls with non-empty condition lists. */
  lemma {:induction false} BuilderMeansIntended(row: Row, calls: seq<Call>)
    requires forall i | 0 <= i < |calls| :: calls[i].cs != []
    ensures var (groups, globals) := Built(calls);
            Meaning(row, CompileWhere(groups, globals, true)) == Some(Intended(row, groups, globals))
  {
    BuiltGroups(calls);
    WhereMeansIntended(row, Built(calls).0, Built(calls).1);
  }

  lemma {:induction false} AllOfBoth(row: Row, cs: seq<Condition>, more: seq<Condition>)
    ensures AllOf(row, cs + more) == And3(AllOf(row, cs), AllOf(row, more))
  {
    if cs == [] {
      assert cs + more == more;
    } else {
      assert (cs + more)[1..] == cs[1..] + more;
      AllOfBoth(row, cs[1..], more);
    }
  }

  lemma {:induction false} AnyOfOneMore(row: Row, groups: seq<seq<Condition>>, g: seq<Condition>)
    ensures AnyOf(row, groups + [g]) == Or3(AnyOf(row, groups), AllOf(row, g))
  {
    if groups == [] {
      assert groups + [g] == [g];
      assert AnyOf(row, [g][1..]) == False;
    } else {
      assert (groups + [g])[1..] == groups[1..] + [g];
      AnyOfOneMore(row, groups[1..], g);
    }
  }

  /** What a call adds to the predicate: `or_where` an alternative to the groups,
      `where` a condition on the latest alternative, `global_where` one on everything. */
  lemma {:induction false} CallMeans(row: Row, groups: seq<seq<Condition>>, globals: seq<Condition>, call: Call)
    ensures var (groups', globals') := AfterCall(groups, globals, call);
            match call
            case OrWhere(cs) => globals' == globals && AnyOf(row, groups') == Or3(AnyOf(row, groups), AllOf(row, cs))
            case Where(cs) =>
              && globals' == globals
              && (groups == [] ==> AnyOf(row, groups') == AllOf(row, cs))
              && (groups != [] ==>
                    var front, last := groups[..|groups| - 1], groups[|groups| - 1];
                    AnyOf(row, groups') == Or3(AnyOf(row, front), And3(AllOf(row, last), AllOf(row, cs))))
            case GlobalWhere(cs) =>
              groups' == groups && Intended(row, groups', globals') == And3(Intended(row, groups, globals), AllOf(row, cs))
  {
    match call
    case OrWhere(cs) => AnyOfOneMore(row, groups, cs);
    case GlobalWhere(cs) => AllOfBoth(row, globals, cs);
    case Where(cs) =>
      if groups == [] {
        AnyOfOneMore(row, [], cs);
        assert [] + [cs] == [cs];
      } else {
        var front, last := groups[..|groups| - 1], groups[|groups| - 1];
        AllOfBoth(row, last, cs);
        AnyOfOneMore(row, front, last + cs);
        assert groups[|groups| - 1 := last + cs] == front + [last + cs];
      }
  }

  // ---- UPDATE and DELETE drop the global conditions ----

  lemma {:induction false} StatementMeaning(row: Row, groups: seq<seq<Condition>>)
    requires NoEmptyGroup(groups)
    ensures Meaning(row, CompileStatementWhere(groups)) == Some(if groups == [] then True else AnyOf(row, groups))
  {
    if groups != [] {
      var text := CompileGroups(groups);
      assert CompileStatementWhere(groups)[1..] == text == text + [];
      ReadGroups(row, groups, []);
    }
  }

  predicate Holds(g: seq<Condition>, a: Atom) {
    exists i | 0 <= i < |g| :: CompileCondition(g[i]) == a
  }

  /** Every group repeats every global condition. */
  predicate GlobalsRepeated(groups: seq<seq<Condition>>, globals: seq<Condition>) {
    forall i, j | 0 <= i < |groups| && 0 <= j < |globals| :: Holds(groups[i], CompileCondition(globals[j]))
  }

  /** The statements mean the same predicate as the clause of a query for every row
      exactly when there are no global conditions to lose, or each group says them anyway. */
  lemma {:induction false} StatementsAgreeExactly(groups: seq<seq<Condition>>, globals: seq<Condition>)
    requires NoEmptyGroup(groups)
    ensures (forall row: Row :: Meaning(row, CompileStatementWhere(groups)) == Meaning(row, CompileWhere(groups, globals, true)))
       <==> globals == [] || (groups != [] && GlobalsRepeated(groups, globals))
  {
    if globals == [] || (groups != [] && GlobalsRepeated(groups, globals)) {
      forall row: Row
        ensures Meaning(row, CompileStatementWhere(groups)) == Meaning(row, CompileWhere(groups, globals, true)) {
        StatementMeaning(row, groups);
        WhereMeansIntended(row, groups, globals);
        if globals != [] { AnyBelow(row, groups, globals); }
      }
    } else {
      var row := SeparatingRow(groups, globals);
      StatementMeaning(row, groups);
      WhereMeansIntended(row, groups, globals);
    }
  }

  lemma {:induction false} AllBelowOne(row: Row, g: seq<Condition>, i: nat)
    requires i < |g|
    ensures Rank(AllOf(row, g)) <= Rank(row(CompileCondition(g[i])))
  {
    if i > 0 { AllBelowOne(row, g[1..], i - 1); }
  }

  lemma {:induction false} AllBelowAll(row: Row, g: seq<Condition>, globals: seq<Condition>)
    requires forall j | 0 <= j < |globals| :: Holds(g, CompileCondition(globals[j]))
    ensures Rank(AllOf(row, g)) <= Rank(AllOf(row, globals))
    decreases |globals|
  {
    if globals != [] {
      assert Holds(g, CompileCondition(globals[0]));
      var i :| 0 <= i < |g| && CompileCondition(g[i]) == CompileCondition(globals[0]);
      AllBelowOne(row, g, i);
      assert forall j | 0 <= j < |globals| - 1 :: globals[1..][j] == globals[j + 1];
      AllBelowAll(row, g, globals[1..]);
    }
  }

  lemma {:induction false} AnyBelow(row: Row, groups: seq<seq<Condition>>, globals: seq<Condition>)
    requires GlobalsRepeated(groups, globals)
    ensures Rank(AnyOf(row, groups)) <= Rank(AllOf(row, globals))
    decreases |groups|
  {
    if groups != [] {
      AllBelowAll(row, groups[0], globals);
      assert forall i | 0 <= i < |groups| - 1 :: groups[1..][i] == groups[i + 1];
      AnyBelow(row, groups[1..], globals);
    }
  }

  /** A row that meets one whole group and fails a global condition the group lacks. */
  lemma {:induction false} SeparatingRow(groups: seq<seq<Condition>>, globals: seq<Condition>) returns (row: Row)
    requires globals != [] && !(groups != [] && GlobalsRepeated(groups, globals))
    ensures AllOf(row, globals) == False
    ensures groups != [] ==> AnyOf(row, groups) == True
  {
    if groups == [] {
      row := a => False;
    } else {
      var i, j :| 0 <= i < |groups| && 0 <= j < |globals| && !Holds(groups[i], CompileCondition(globals[j]));
      var g := groups[i];
      row := a => if Holds(g, a) then True else False;
      AllBelowOne(row, globals, j);
      AllTrue(row, g);
      AnyAbove(row, groups, i);
    }
  }

  lemma {:induction false} AllTrue(row: Row, g: seq<Condition>)
    requires forall i | 0 <= i < |g| :: row(CompileCondition(g[i])) == True
    ensures AllOf(row, g) == True
  {
    if g != [] { AllTrue(row, g[1..]); }
  }

  lemma {:induction false} AnyAbove(row: Row, groups: seq<seq<Condition>>, i: nat)
    requires i < |groups|
    ensures Rank(AllOf(row, groups[i])) <= Rank(AnyOf(row, groups))
  {
    if i > 0 { AnyAbove(row, groups[1..], i - 1); }
  }

  // ---- Conditions against NULL ----

  /** SQL reads keywords without regard to letter case. */
  function Upper(s: string): string {
    seq(|s|, i requires 0 <= i < |s| => if 'a' <= s[i] <= 'z' then s[i] - 'a' + 'A' else s[i])
  }

  /** A row of values: `None` is NULL. IS and the null-safe `<=>` are never unknown where
      they are defined; other comparisons are unknown on NULL. */
  function Evaluate(values: Values, compare: Compare, a: Atom): Truth {
    var value, operator := values(a.first), Upper(a.operator);
    if operator == "<=>" then
      (if value.None? || a.second.Null? then Known(value.None? && a.second.Null?)
       else Known(compare("=", value.value, a.second.text)))
    else if operator == "IS" && a.second.Null? then Known(value.None?)
    else if operator == "IS NOT" && a.second.Null? then Known(value.Some?)
    else if value.None? || a.second.Null? then Unknown
    else Known(compare(a.operator, value.value, a.second.text))
  }

  function Known(b: bool): Truth {
    if b then True else False
  }

  predicate Equality(operator: string) {
    Upper(operator) in {"=", "IS", "<=>"}
  }

  predicate Inequality(operator: string) {
    Upper(operator) in {"!=", "<>", "IS NOT"}
  }

  /** What a comparison of a column with NULL is meant to ask; an order or a pattern has no answer. */
  function NullTest(operator: string, isNull: bool): Truth {
    if Equality(operator) then Known(isNull)
    else if Inequality(operator) then Known(!isNull)
    else Unknown
  }

  type Values = string -> Option<string>
  type Compare = (string, string, string) -> bool

  /** What a condition asks of a row: the comparison it names, of the column it names with
      the value it names. */
  function Asked(values: Values, compare: Compare, c: Condition): Truth {
    var value := values(c.first);
    if c.second.Null? then NullTest(c.operator, value.None?)
    else if Upper(c.operator) == "<=>" then Known(value.Some? && compare("=", value.value, c.second.text))
    else if value.None? then Unknown
    else Known(compare(c.operator, value.value, c.second.text))
  }

  /** A printed condition is the test it asks for unless it compares with NULL, where the
      operator is lost on the way: then exactly for the three ways to write equality. */
  lemma {:induction false} ConditionExactly(c: Condition)
    ensures (forall values: Values, compare: Compare :: Evaluate(values, compare, CompileCondition(c)) == Asked(values, compare, c))
       <==> c.second.Value? || Equality(c.operator)
  {
    hide Upper;
    IsIsUpper();
    if c.second.Null? && !Equality(c.operator) {
      var values: Values, compare: Compare := s => None, (o: string, a: string, b: string) => false;
      assert Evaluate(values, compare, CompileCondition(c)) == True;
      assert Asked(values, compare, c) != True;
    }
  }

  predicate Plain(cs: seq<Condition>) {
    forall i | 0 <= i < |cs| :: cs[i].second.Value? || Equality(cs[i].operator)
  }

  function AllAsked(values: Values, compare: Compare, cs: seq<Condition>): Truth {
    if cs == [] then True else And3(Asked(values, compare, cs[0]), AllAsked(values, compare, cs[1..]))
  }

  function AnyAsked(values: Values, compare: Compare, groups: seq<seq<Condition>>): Truth {
    if groups == [] then False else Or3(AllAsked(values, compare, groups[0]), AnyAsked(values, compare, groups[1..]))
  }

  lemma {:induction false} AllAsAsked(values: Values, compare: Compare, cs: seq<Condition>)
    requires Plain(cs)
    ensures AllOf(a => Evaluate(values, compare, a), cs) == AllAsked(values, compare, cs)
  {
    hide Evaluate, Asked;
    if cs != [] {
      ConditionExactly(cs[0]);
      AllAsAsked(values, compare, cs[1..]);
    }
  }

  lemma {:induction false} AnyAsAsked(values: Values, compare: Compare, groups: seq<seq<Condition>>)
    requires forall i | 0 <= i < |groups| :: Plain(groups[i])
    ensures AnyOf(a => Evaluate(values, compare, a), groups) == AnyAsked(values, compare, groups)
  {
    if groups != [] {
      AllAsAsked(values, compare, groups[0]);
      AnyAsAsked(values, compare, groups[1..]);
    }
  }

  /** From the conditions to the answer: a database that reads the printed text answers, for
      each row, what the conditions ask of it, (OR over groups of AND) AND (AND of globals). */
  lemma {:induction false} QueryAnswersAsked(values: Values, compare: Compare, groups: seq<seq<Condition>>, globals: seq<Condition>)
    requires NoEmptyGroup(groups) && Plain(globals) && forall i | 0 <= i < |groups| :: Plain(groups[i])
    ensures Meaning(a => Evaluate(values, compare, a), CompileWhere(groups, globals, true))
            == Some(And3(if groups == [] then True else AnyAsked(values, compare, groups), AllAsked(values, compare, globals)))
  {
    hide Evaluate, Plain, CompileWhere, Meaning;
    var row: Row := a => Evaluate(values, compare, a);
    WhereMeansIntended(row, groups, globals);
    AllAsAsked(values, compare, globals);
    AnyAsAsked(values, compare, groups);
  }

  lemma {:induction false} IsIsUpper()
    ensures Upper("IS") == "IS"
  {
  }
}
