/** `route_item` and `route_param::extract`: a route pattern becomes a regular expression
    of three kinds of groups, matched by backtracking with greedy repetition. */
module Router {
  import opened Results

  /** `route_param`. Not static and named `*` means a free wildcard. */
  datatype RouteParam = RouteParam(name: string, isStatic: bool) {
    predicate IsWild() { !isStatic && name == "*" }
    predicate IsNamed() { !isStatic && name != "*" }
  }

  type Pattern = seq<RouteParam>
  type Params = map<string, string>

  // ---- Reading a route ----

  predicate Special(c: char) {
    c == '*' || c == '{' || c == '}'
  }

  /** Length of the longest prefix of `s` free of characters that end a run. */
  function Run(s: string, inName: bool): (n: nat)
    ensures n <= |s|
    ensures forall i | 0 <= i < n :: if inName then s[i] != '}' else !Special(s[i])
    ensures n < |s| ==> if inName then s[n] == '}' else Special(s[n])
  {
    if s == "" || (if inName then s[0] == '}' else Special(s[0])) then 0 else 1 + Run(s[1..], inName)
  }

  /** The constructor's parser: `Err` is the expectation failure on an unclosed or empty
      name; a stray closing brace ends the route and the rest is ignored. */
  function ParseRoute(s: string): Result<Pattern>
    decreases |s|
  {
    if s == "" || s[0] == '}' then Ok([])
    else if s[0] == '*' then Prefix(RouteParam("*", false), ParseRoute(s[1..]))
    else if s[0] == '{' then
      var n := Run(s[1..], true);
      if n == 0 || 1 + n == |s| then Err
      else Prefix(RouteParam(s[1..1 + n], false), ParseRoute(s[n + 2..]))
    else
      var n := Run(s, false);
      Prefix(RouteParam(s[..n], true), ParseRoute(s[n..]))
  }

  function Prefix(p: RouteParam, rest: Result<Pattern>): Result<Pattern> {
    match rest
    case Err => Err
    case Ok(ps) => Ok([p] + ps)
  }

  function Concat(parts: seq<string>): string {
    if parts == [] then "" else parts[0] + Concat(parts[1..])
  }

  /** How a route text may spell a part. */
  predicate Spells(text: string, p: RouteParam) {
    if p.isStatic then text == p.name
    else text == "{" + p.name + "}" || (p.name == "*" && text == "*")
  }

  predicate AllSpelled(texts: seq<string>, ps: Pattern) {
    |texts| == |ps| && forall i | 0 <= i < |ps| :: Spells(texts[i], ps[i])
  }

  /** Patterns with non-empty parts, no special characters and no two literals in a row. */
  predicate Printable(ps: Pattern) {
    ps != [] ==>
      && ps[0].name != ""
      && (forall c | c in ps[0].name :: if ps[0].isStatic then !Special(c) else c != '}')
      && (ps[0].isStatic && |ps| > 1 ==> !ps[1].isStatic)
      && Printable(ps[1..])
  }

  /** Nothing more, or a stray closing brace, which hides the rest. */
  predicate Ended(tail: string) {
    tail == "" || tail[0] == '}'
  }

  /** An opening brace whose name is empty or never closed. */
  predicate Unclosed(tail: string) {
    tail != "" && tail[0] == '{' && (tail[1..] == "" || tail[1] == '}' || '}' !in tail)
  }

  lemma {:induction false} RunIs(s: string, inName: bool, n: nat)
    requires n <= |s| && forall i | 0 <= i < n :: if inName then s[i] != '}' else !Special(s[i])
    requires n < |s| ==> if inName then s[n] == '}' else Special(s[n])
    ensures Run(s, inName) == n
  {
  }

  lemma {:induction false} ParseLiteral(name: string, rest: string)
    requires name != "" && forall c | c in name :: !Special(c)
    requires rest != "" ==> Special(rest[0])
    ensures ParseRoute(name + rest) == Prefix(RouteParam(name, true), ParseRoute(rest))
  {
    var s := name + rest;
    assert forall i | 0 <= i < |name| :: name[i] in name;
    RunIs(s, false, |name|);
    assert s[..|name|] == name && s[|name|..] == rest;
    assert s[0] in name;
  }

  lemma {:induction false} HoleSlices(name: string, rest: string)
    ensures var s := "{" + name + "}" + rest;
            && s[0] == '{' && s[1..] == name + "}" + rest
            && s[1..1 + |name|] == name && s[|name| + 2..] == rest
  {
  }

  lemma {:induction false} ParseHole(name: string, rest: string)
    requires name != "" && forall c | c in name :: c != '}'
    ensures ParseRoute("{" + name + "}" + rest) == Prefix(RouteParam(name, false), ParseRoute(rest))
  {
    hide Run, Prefix, Special;
    var inside := name + "}" + rest;
    HoleSlices(name, rest);
    assert forall i | 0 <= i < |name| :: inside[i] == name[i] && name[i] in name;
    assert inside[|name|] == '}';
    RunIs(inside, true, |name|);
  }

  lemma {:induction false} UnclosedFails(tail: string)
    requires Unclosed(tail)
    ensures ParseRoute(tail) == Err
  {
    var inside := tail[1..];
    if inside != "" && inside[0] != '}' {
      assert forall i | 0 <= i < |inside| :: inside[i] == tail[i + 1] && tail[i + 1] in tail;
      RunIs(inside, true, |inside|);
    }
  }

  lemma {:induction false} EndedRead(tail: string)
    requires Ended(tail)
    ensures ParseRoute(tail) == Ok([])
  {
  }

  lemma {:induction false} ParseWildcard(rest: string)
    ensures ParseRoute("*" + rest) == Prefix(RouteParam("*", false), ParseRoute(rest))
  {
    assert ("*" + rest)[1..] == rest;
  }

  /** Every spelling of a pattern is read back as the pattern, up to a stray closing brace;
      an empty or unclosed name behind it is an error. */
  lemma {:induction false} RouteRead(ps: Pattern, texts: seq<string>, tail: string)
    requires Printable(ps) && AllSpelled(texts, ps) && (Ended(tail) || Unclosed(tail))
    ensures ParseRoute(Concat(texts) + tail) == if Ended(tail) then Ok(ps) else Err
    decreases |ps|
  {
    hide ParseRoute, Run;
    if ps == [] {
      assert Concat(texts) + tail == tail;
      if Ended(tail) { EndedRead(tail); } else { UnclosedFails(tail); }
    } else {
      var p, rest := ps[0], Concat(texts[1..]) + tail;
      assert Concat(texts) + tail == texts[0] + rest;
      assert forall i | 0 <= i < |ps| - 1 :: ps[1..][i] == ps[i + 1] && texts[1..][i] == texts[i + 1];
      RouteRead(ps[1..], texts[1..], tail);
      if p.isStatic {
        assert |ps| > 1 ==> texts[1..][0] == texts[1] && Spells(texts[1], ps[1]) && Special(texts[1][0]);
        ParseLiteral(p.name, rest);
      } else if texts[0] == "*" {
        ParseWildcard(rest);
      } else {
        ParseHole(p.name, rest);
      }
      assert [p] + ps[1..] == ps;
    }
  }

  /** There are no other route texts: each is a spelled pattern and such an end. */
  lemma {:induction false} EveryRoute(s: string) returns (ps: Pattern, texts: seq<string>, tail: string)
    ensures Printable(ps) && AllSpelled(texts, ps) && (Ended(tail) || Unclosed(tail))
    ensures s == Concat(texts) + tail
    ensures ps != [] && ps[0].isStatic ==> s != "" && !Special(s[0])
    decreases |s|
  {
    hide Run;
    ps, texts, tail := [], [], s;
    if Ended(s) {
    } else if s[0] == '{' {
      var n := Run(s[1..], true);
      if n == 0 || n + 1 == |s| {
        NameMissing(s);
      } else {
        var name := s[1..n + 1];
        assert forall i | 0 <= i < n :: name[i] == s[1..][i];
        assert s[1..][n] == s[n + 1];
        assert s == "{" + name + "}" + s[n + 2..];
        ps, texts, tail := EveryRoute(s[n + 2..]);
        ps, texts := Extended(RouteParam(name, false), "{" + name + "}", ps, texts, tail);
      }
    } else if s[0] == '*' {
      assert s == "*" + s[1..];
      ps, texts, tail := EveryRoute(s[1..]);
      ps, texts := Extended(RouteParam("*", false), "*", ps, texts, tail);
    } else {
      var n := Run(s, false);
      assert s == s[..n] + s[n..];
      ps, texts, tail := EveryRoute(s[n..]);
      ps, texts := Extended(RouteParam(s[..n], true), s[..n], ps, texts, tail);
    }
  }

  lemma {:induction false} NameMissing(s: string)
    requires s != "" && s[0] == '{' && (Run(s[1..], true) == 0 || Run(s[1..], true) + 1 == |s|)
    ensures Unclosed(s)
  {
    var inside := s[1..];
    assert forall i | 0 < i < |s| :: s[i] == inside[i - 1];
  }

  lemma {:induction false} Extended(p: RouteParam, text: string, ps: Pattern, texts: seq<string>, tail: string)
    returns (longer: Pattern, spelled: seq<string>)
    requires Printable(ps) && AllSpelled(texts, ps) && Spells(text, p)
    requires p.name != "" && (forall c | c in p.name :: if p.isStatic then !Special(c) else c != '}')
    requires p.isStatic && ps != [] ==> !ps[0].isStatic
    ensures longer == [p] + ps && spelled == [text] + texts && Printable(longer) && AllSpelled(spelled, longer)
    ensures Concat(spelled) + tail == text + (Concat(texts) + tail)
  {
    longer, spelled := [p] + ps, [text] + texts;
    assert longer[1..] == ps && spelled[1..] == texts;
  }

  // ---- Matching ----

  /** What one group may capture: a literal itself, a wildcard anything within a line, a
      named hole anything without a slash. */
  predicate Fits(p: RouteParam, s: string) {
    if p.isStatic then s == p.name
    else if p.name == "*" then '\n' !in s && '\r' !in s
    else '/' !in s
  }

  /** The path can be cut into pieces that fit the groups. */
  predicate IsSplit(ps: Pattern, path: string, pieces: seq<string>) {
    |pieces| == |ps| && Concat(pieces) == path && forall i | 0 <= i < |ps| :: Fits(ps[i], pieces[i])
  }

  /** One character of `.*` or of `[^/]*`. */
  predicate Takes(p: RouteParam, c: char) {
    if p.name == "*" then c != '\n' && c != '\r' else c != '/'
  }

  /** How far a group can reach into `path` at most. */
  function Reach(p: RouteParam, path: string): (n: nat)
    ensures n <= |path|
  {
    if path == "" || !Takes(p, path[0]) then 0 else 1 + Reach(p, path[1..])
  }

  /** `regex_match` on the generated expression: the captures of all groups. */
  function Match(ps: Pattern, path: string): Option<seq<string>>
    decreases |ps|, 0, 0
  {
    if ps == [] then (if path == "" then Some([]) else None)
    else if ps[0].isStatic then
      (if ps[0].name <= path then Try(ps, path, |ps[0].name|) else None)
    else Backtrack(ps, path, Reach(ps[0], path))
  }

  /** The first group captures `n` characters. */
  function Try(ps: Pattern, path: string, n: nat): Option<seq<string>>
    requires ps != [] && n <= |path|
    decreases |ps| - 1, 1, 0
  {
    match Match(ps[1..], path[n..])
    case None => None
    case Some(pieces) => Some([path[..n]] + pieces)
  }

  /** Greedy repetition: `n` characters, or else fewer. */
  function Backtrack(ps: Pattern, path: string, n: nat): Option<seq<string>>
    requires ps != [] && n <= |path|
    decreases |ps| - 1, 2, n
  {
    var r := Try(ps, path, n);
    if r.Some? || n == 0 then r else Backtrack(ps, path, n - 1)
  }

  lemma {:induction false} ReachExactly(p: RouteParam, path: string, n: nat)
    requires !p.isStatic && n <= |path|
    ensures n <= Reach(p, path) <==> Fits(p, path[..n])
  {
    if path != "" && n > 0 {
      ReachExactly(p, path[1..], n - 1);
      assert path[..n] == [path[0]] + path[1..][..n - 1];
    }
  }

  /** Whenever a group's length and the rest succeed, so does the whole match. */
  lemma {:induction false} BacktrackFinds(ps: Pattern, path: string, n: nat, k: nat)
    requires ps != [] && k <= n <= |path|
    requires Try(ps, path, k).Some?
    ensures Backtrack(ps, path, n).Some? && |Backtrack(ps, path, n).value| > 0
    ensures |Backtrack(ps, path, n).value[0]| >= k
    decreases n
  {
    if Try(ps, path, n).None? {
      BacktrackFinds(ps, path, n - 1, k);
    }
  }

  lemma {:induction false} BacktrackIsTry(ps: Pattern, path: string, n: nat) returns (k: nat)
    requires ps != [] && n <= |path|
    ensures k <= n && Backtrack(ps, path, n) == Try(ps, path, k)
    decreases n
  {
    k := n;
    if Try(ps, path, n).None? && n > 0 {
      k := BacktrackIsTry(ps, path, n - 1);
    }
  }

  /** A match is a split of the path, piece by piece. */
  lemma {:induction false} MatchSound(ps: Pattern, path: string)
    requires Match(ps, path).Some?
    ensures IsSplit(ps, path, Match(ps, path).value)
    decreases |ps|
  {
    hide Backtrack, Reach;
    if ps != [] {
      var k := if ps[0].isStatic then |ps[0].name| else 0;
      if !ps[0].isStatic {
        k := BacktrackIsTry(ps, path, Reach(ps[0], path));
        ReachExactly(ps[0], path, k);
      }
      MatchSound(ps[1..], path[k..]);
      SplitFirst(ps, path, k, Match(ps[1..], path[k..]).value);
    }
  }

  lemma {:induction false} SplitFirst(ps: Pattern, path: string, k: nat, rest: seq<string>)
    requires ps != [] && k <= |path| && Fits(ps[0], path[..k]) && IsSplit(ps[1..], path[k..], rest)
    ensures IsSplit(ps, path, [path[..k]] + rest)
  {
    var pieces := [path[..k]] + rest;
    assert pieces[1..] == rest;
    assert path[..k] + path[k..] == path;
  }

  /** Earlier groups take as much as they can: `a` is ahead of every other split at the
      first place where the two differ. */
  predicate Greedier(a: seq<string>, b: seq<string>)
    requires |a| == |b|
  {
    a == b || (a != [] && (|a[0]| > |b[0]| || (a[0] == b[0] && Greedier(a[1..], b[1..]))))
  }

  /** Every split is found, or one that is greedier. */
  lemma {:induction false} MatchComplete(ps: Pattern, path: string, pieces: seq<string>)
    requires IsSplit(ps, path, pieces)
    ensures Match(ps, path).Some?
    ensures |Match(ps, path).value| == |ps| && Greedier(Match(ps, path).value, pieces)
    decreases |ps|
  {
    if ps != [] {
      var k := |pieces[0]|;
      assert path == pieces[0] + Concat(pieces[1..]);
      assert path[..k] == pieces[0] && path[k..] == Concat(pieces[1..]);
      assert forall i | 0 <= i < |ps| - 1 :: ps[1..][i] == ps[i + 1] && pieces[1..][i] == pieces[i + 1];
      MatchComplete(ps[1..], path[k..], pieces[1..]);
      var rest := Match(ps[1..], path[k..]).value;
      assert Try(ps, path, k) == Some([pieces[0]] + rest);
      if !ps[0].isStatic {
        var n := Reach(ps[0], path);
        ReachExactly(ps[0], path, k);
        BacktrackFinds(ps, path, n, k);
        var j := BacktrackIsTry(ps, path, n);
        MatchSound(ps, path);
        if j == k {
          assert ([pieces[0]] + rest)[1..] == rest;
        }
      } else {
        assert ([pieces[0]] + rest)[1..] == rest;
      }
      assert [pieces[0]] + pieces[1..] == pieces;
    }
  }

  /** A route matches exactly when the path splits; the captures are the greediest split. */
  lemma {:induction false} MatchExactly(ps: Pattern, path: string)
    ensures Match(ps, path).Some? <==> exists pieces :: IsSplit(ps, path, pieces)
    ensures Match(ps, path).Some? ==>
              var best := Match(ps, path).value;
              IsSplit(ps, path, best) && forall pieces | IsSplit(ps, path, pieces) :: Greedier(best, pieces)
  {
    if Match(ps, path).Some? {
      MatchSound(ps, path);
    }
    forall pieces | IsSplit(ps, path, pieces)
      ensures Match(ps, path).Some? && |Match(ps, path).value| == |pieces| && Greedier(Match(ps, path).value, pieces)
    {
      MatchComplete(ps, path, pieces);
    }
  }

  // ---- Extracting the parameters ----

  /** The captures of named holes, added in order; a name already present keeps its value. */
  function Extracted(ps: Pattern, pieces: seq<string>, params: Params): Params
    requires |ps| == |pieces|
  {
    if ps == [] then params
    else
      var next := if ps[0].IsNamed() && ps[0].name !in params then params[ps[0].name := pieces[0]] else params;
      Extracted(ps[1..], pieces[1..], next)
  }

  /** `route_param::extract` */
  method Extract(ps: Pattern, path: string, params: Params) returns (matched: bool, result: Params)
    ensures matched <==> exists pieces :: IsSplit(ps, path, pieces)
    ensures matched ==> Match(ps, path).Some? && |Match(ps, path).value| == |ps|
                        && result == Extracted(ps, Match(ps, path).value, params)
    ensures !matched ==> result == params
  {
    MatchExactly(ps, path);
    result := params;
    var smatch := Match(ps, path);
    if smatch.None? { return false, result; }
    var pieces := smatch.value;
    var i := 0;
    while i < |pieces|
      invariant 0 <= i <= |pieces| == |ps|
      invariant Extracted(ps, pieces, params) == Extracted(ps[i..], pieces[i..], result)
    {
      assert ps[i..][0] == ps[i] && ps[i..][1..] == ps[i + 1..];
      assert pieces[i..][0] == pieces[i] && pieces[i..][1..] == pieces[i + 1..];
      if ps[i].IsNamed() && ps[i].name !in result {
        result := result[ps[i].name := pieces[i]];
      }
      i := i + 1;
    }
    matched := true;
  }

  /** Parameters given before the match win over captures. */
  lemma {:induction false} ExtractedKeeps(ps: Pattern, pieces: seq<string>, params: Params, name: string)
    requires |ps| == |pieces| && name in params
    ensures name in Extracted(ps, pieces, params) && Extracted(ps, pieces, params)[name] == params[name]
  {
    if ps != [] {
      var next := if ps[0].IsNamed() && ps[0].name !in params then params[ps[0].name := pieces[0]] else params;
      ExtractedKeeps(ps[1..], pieces[1..], next, name);
    }
  }

  /** Each capture lands under its own name; of a repeated name the first one counts. */
  lemma {:induction false} ExtractedFirst(ps: Pattern, pieces: seq<string>, params: Params, i: nat)
    requires |ps| == |pieces| && i < |ps| && !ps[i].isStatic && ps[i].name != "*" && ps[i].name !in params
    requires forall j | 0 <= j < i && !ps[j].isStatic :: ps[j].name != ps[i].name
    ensures ps[i].name in Extracted(ps, pieces, params) && Extracted(ps, pieces, params)[ps[i].name] == pieces[i]
  {
    var next := if ps[0].IsNamed() && ps[0].name !in params then params[ps[0].name := pieces[0]] else params;
    if i == 0 {
      ExtractedKeeps(ps[1..], pieces[1..], next, ps[0].name);
    } else {
      assert forall j | 0 <= j < i - 1 :: ps[1..][j] == ps[j + 1];
      ExtractedFirst(ps[1..], pieces[1..], next, i - 1);
    }
  }

  /** Only names of holes appear. */
  lemma {:induction false} ExtractedOnlyNames(ps: Pattern, pieces: seq<string>, params: Params, name: string)
    requires |ps| == |pieces| && name in Extracted(ps, pieces, params) && name !in params
    ensures exists i | 0 <= i < |ps| :: ps[i] == RouteParam(name, false) && name != "*"
  {
    if ps != [] {
      var next := if ps[0].IsNamed() && ps[0].name !in params then params[ps[0].name := pieces[0]] else params;
      if name !in next {
        ExtractedOnlyNames(ps[1..], pieces[1..], next, name);
        var i :| 0 <= i < |ps| - 1 && ps[1..][i] == RouteParam(name, false);
        assert ps[i + 1] == RouteParam(name, false);
      } else {
        assert ps[0] == RouteParam(name, false);
      }
    }
  }

  // ---- Filling a route and matching it again ----

  /** Every named hole is followed by a literal that starts with a slash, or by nothing;
      a wildcard comes last. */
  predicate Separated(ps: Pattern) {
    ps != [] ==>
      && (ps[0].IsWild() ==> |ps| == 1)
      && (!ps[0].isStatic && |ps| > 1 ==> ps[1].isStatic && ps[1].name != "" && ps[1].name[0] == '/')
      && Separated(ps[1..])
  }

  /** The split of a filled route is the only one. */
  lemma {:induction false} OnlySplit(ps: Pattern, path: string, a: seq<string>, b: seq<string>)
    requires Separated(ps) && IsSplit(ps, path, a) && IsSplit(ps, path, b)
    ensures a == b
  {
    if ps != [] {
      if !ps[0].isStatic {
        SameHole(ps, path, a, b);
      }
      assert a[0] == b[0];
      assert path[|a[0]|..] == Concat(a[1..]) && path[|b[0]|..] == Concat(b[1..]);
      assert forall i | 0 <= i < |ps| - 1 :: ps[1..][i] == ps[i + 1] && a[1..][i] == a[i + 1] && b[1..][i] == b[i + 1];
      OnlySplit(ps[1..], path[|a[0]|..], a[1..], b[1..]);
      assert a == [a[0]] + a[1..] && b == [b[0]] + b[1..];
    }
  }

  /** A slash-free value in front of a slash has only one possible length, and so has the last one. */
  lemma {:induction false} SameHole(ps: Pattern, path: string, a: seq<string>, b: seq<string>)
    requires Separated(ps) && IsSplit(ps, path, a) && IsSplit(ps, path, b)
    requires ps != [] && !ps[0].isStatic
    ensures a[0] == b[0]
  {
    HoleEnds(ps, path, a);
    HoleEnds(ps, path, b);
  }

  lemma {:induction false} HoleEnds(ps: Pattern, path: string, a: seq<string>)
    requires Separated(ps) && IsSplit(ps, path, a) && ps != [] && !ps[0].isStatic
    ensures |a[0]| <= |path| && path[..|a[0]|] == a[0]
    ensures |a[0]| == |path| || path[|a[0]|] == '/'
    ensures |ps| == 1 ==> |a[0]| == |path|
    ensures |ps| > 1 ==> forall i | 0 <= i < |a[0]| :: path[i] != '/'
  {
    assert path == a[0] + Concat(a[1..]);
    assert forall i | 0 <= i < |a[0]| :: path[i] == a[0][i] && a[0][i] in a[0];
    if |ps| > 1 {
      assert a[1..][0] == a[1] && Fits(ps[1], a[1]);
      assert Concat(a[1..]) == a[1] + Concat(a[1..][1..]);
    }
  }

  /** Filling the holes with slash-free values, and a final wildcard with anything, and
      matching returns exactly those values. */
  lemma {:induction false} FillThenMatch(ps: Pattern, pieces: seq<string>)
    requires Separated(ps) && |pieces| == |ps| && forall i | 0 <= i < |ps| :: Fits(ps[i], pieces[i])
    ensures Match(ps, Concat(pieces)) == Some(pieces)
  {
    var path := Concat(pieces);
    MatchComplete(ps, path, pieces);
    MatchSound(ps, path);
    OnlySplit(ps, path, Match(ps, path).value, pieces);
  }

  /** A literal and then one capture: a wildcard takes the rest with its slashes, a named
      hole takes it only if it has none. */
  lemma {:induction false} OneCapture(literal: string, p: RouteParam, rest: string)
    requires !p.isStatic
    ensures Match([RouteParam(literal, true), p], literal + rest)
            == if (if p.name == "*" then '\n' !in rest && '\r' !in rest else '/' !in rest) then Some([literal, rest]) else None
  {
    var ps, path := [RouteParam(literal, true), p], literal + rest;
    assert ps[1..] == [p] && path[|literal|..] == rest && path[..|literal|] == literal;
    LastCapture(p, rest);
    assert literal <= path && Match(ps, path) == Try(ps, path, |literal|);
    assert [literal] + [rest] == [literal, rest];
  }

  lemma {:induction false} LastCapture(p: RouteParam, rest: string)
    requires !p.isStatic
    ensures Match([p], rest) == if Fits(p, rest) then Some([rest]) else None
  {
    MatchExactly([p], rest);
    forall pieces ensures IsSplit([p], rest, pieces) <==> pieces == [rest] && Fits(p, rest) {
      if |pieces| == 1 { assert Concat(pieces) == pieces[0] + "" == pieces[0]; }
    }
    if Fits(p, rest) { assert IsSplit([p], rest, [rest]); }
  }
}
