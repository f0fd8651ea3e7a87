/** The path normaliser of the local file system: three rewriting loops whose work
    must not undo one another. */
module SecurePath {
  import opened Search

  // ---- Rewriting ----

  /** `boost::algorithm::replace_all`: one pass from the left, not rescanning what it wrote. */
  function ReplaceAll(s: string, pattern: string, by_: string): string
    requires pattern != []
  {
    if |s| < |pattern| then s
    else if s[..|pattern|] == pattern then by_ + ReplaceAll(s[|pattern|..], pattern, by_)
    else [s[0]] + ReplaceAll(s[1..], pattern, by_)
  }

  /** No `a` stands immediately before a `b`. */
  predicate NoPair(s: string, a: char, b: char) {
    forall i | 0 <= i < |s| - 1 :: !(s[i] == a && s[i + 1] == b)
  }

  lemma {:induction false} ContainsPair(s: string, a: char, b: char)
    ensures Contains(s, [a, b]) <==> !NoPair(s, a, b)
  {
    if !NoPair(s, a, b) {
      var i :| 0 <= i < |s| - 1 && s[i] == a && s[i + 1] == b;
      assert s[i..i + 2] == [a, b];
      ContainsAt(s, [a, b], i);
    } else if Contains(s, [a, b]) {
      var i := Find(s, [a, b]);
      OccursChar(s, [a, b], i, 0);
      OccursChar(s, [a, b], i, 1);
    }
  }

  /** A pass that finds its pattern shortens the text, so each loop ends. */
  lemma {:induction false} Shrinks(s: string, a: char, b: char, by_: string)
    requires |by_| <= 1
    ensures |ReplaceAll(s, [a, b], by_)| <= |s|
    ensures !NoPair(s, a, b) ==> |ReplaceAll(s, [a, b], by_)| < |s|
  {
    if |s| >= 2 {
      if s[..2] == [a, b] {
        Shrinks(s[2..], a, b, by_);
      } else {
        Shrinks(s[1..], a, b, by_);
        FreeTail(s, a, b);
        assert s[..2] == [s[0], s[1]];
      }
    }
  }

  lemma {:induction false} FreeTail(s: string, a: char, b: char)
    requires s != []
    ensures NoPair(s, a, b) <==> NoPair(s[1..], a, b) && !(|s| > 1 && s[0] == a && s[1] == b)
  {
    if NoPair(s[1..], a, b) && !(|s| > 1 && s[0] == a && s[1] == b) {
      forall i | 0 <= i < |s| - 1 ensures !(s[i] == a && s[i + 1] == b) {
        if i > 0 { assert s[1..][i - 1] == s[i] && s[1..][i] == s[i + 1]; }
      }
    }
  }

  /** Nothing to replace, nothing replaced. */
  lemma {:induction false} Unchanged(s: string, a: char, b: char, by_: string)
    requires NoPair(s, a, b)
    ensures ReplaceAll(s, [a, b], by_) == s
  {
    if |s| >= 2 {
      assert s[..2] == [s[0], s[1]];
      FreeTail(s, a, b);
      Unchanged(s[1..], a, b, by_);
    }
  }

  lemma {:induction false} KeepsOut(s: string, pattern: string, by_: string, c: char)
    requires pattern != [] && c !in s && c !in by_
    ensures c !in ReplaceAll(s, pattern, by_)
  {
    if |s| >= |pattern| {
      if s[..|pattern|] == pattern { KeepsOut(s[|pattern|..], pattern, by_, c); }
      else { KeepsOut(s[1..], pattern, by_, c); }
    }
  }

  lemma {:induction false} Banishes(s: string, c: char, d: char)
    requires c != d
    ensures c !in ReplaceAll(s, [c], [d])
    ensures c !in s ==> ReplaceAll(s, [c], [d]) == s
  {
    if s != [] {
      assert s[..1] == [s[0]];
      Banishes(s[1..], c, d);
    }
  }

  // ---- The first loop: ".." disappears in one pass ----

  function Undotted(s: string): string { ReplaceAll(s, "..", "") }

  lemma {:induction false} UndottedFree(s: string)
    ensures NoPair(Undotted(s), '.', '.')
  {
    if |s| >= 2 {
      if s[..2] == ".." {
        UndottedFree(s[2..]);
      } else {
        assert s[..2] == [s[0], s[1]];
        UndottedFree(s[1..]);
        if |s| > 2 { assert s[1..][..2] == [s[1], s[2]]; }
        FreeTail([s[0]] + Undotted(s[1..]), '.', '.');
        assert ([s[0]] + Undotted(s[1..]))[1..] == Undotted(s[1..]);
      }
    }
  }

  // ---- The second loop: "./" too, and no ".." comes back ----

  function Unhidden(s: string): string { ReplaceAll(s, "./", "/") }

  lemma {:induction false} UnhiddenFree(s: string)
    requires NoPair(s, '.', '.')
    ensures NoPair(Unhidden(s), '.', '.') && NoPair(Unhidden(s), '.', '/')
    ensures s != [] ==> Unhidden(s) != [] && Unhidden(s)[0] == if |s| > 1 && s[0] == '.' && s[1] == '/' then '/' else s[0]
  {
    if |s| >= 2 {
      assert s[..2] == [s[0], s[1]];
      FreeTail(s, '.', '.');
      FreeTail(s[1..], '.', '.');
      if s[..2] == "./" {
        assert s[1..][1..] == s[2..];
        UnhiddenFree(s[2..]);
        FirstFree('/', Unhidden(s[2..]));
      } else {
        UnhiddenFree(s[1..]);
        FirstFree(s[0], Unhidden(s[1..]));
      }
    }
  }

  lemma {:induction false} FirstFree(c: char, s: string)
    requires NoPair(s, '.', '.') && NoPair(s, '.', '/')
    requires c == '.' && s != [] ==> s[0] != '.' && s[0] != '/'
    ensures NoPair([c] + s, '.', '.') && NoPair([c] + s, '.', '/')
  {
    assert ([c] + s)[1..] == s;
    FreeTail([c] + s, '.', '.');
    FreeTail([c] + s, '.', '/');
  }

  // ---- The third loop: runs of slashes ----

  function Halved(s: string): string { ReplaceAll(s, "//", "/") }

  /** What the loop arrives at: each run of slashes is one slash. */
  function Collapsed(s: string): string {
    if s == [] then []
    else if |s| > 1 && s[0] == '/' && s[1] == '/' then Collapsed(s[1..])
    else [s[0]] + Collapsed(s[1..])
  }

  lemma {:induction false} HalvedKeeps(s: string)
    ensures Collapsed(Halved(s)) == Collapsed(s)
    ensures s != [] ==> Halved(s) != [] && Halved(s)[0] == s[0]
  {
    if |s| >= 2 {
      assert s[..2] == [s[0], s[1]];
      if s[..2] == "//" {
        HalvedKeeps(s[2..]);
        assert s[1..][1..] == s[2..];
        assert Halved(s) == "/" + Halved(s[2..]);
        assert Halved(s)[1..] == Halved(s[2..]);
        assert s[2..] == [] ==> Halved(s[2..]) == [];
      } else {
        HalvedKeeps(s[1..]);
        assert Halved(s)[1..] == Halved(s[1..]);
      }
    }
  }

  lemma {:induction false} CollapsedFree(s: string)
    ensures NoPair(Collapsed(s), '/', '/')
    ensures s != [] ==> Collapsed(s) != [] && Collapsed(s)[0] == s[0]
    ensures NoPair(s, '/', '/') ==> Collapsed(s) == s
  {
    if s != [] {
      CollapsedFree(s[1..]);
      FreeTail(s, '/', '/');
      if !(|s| > 1 && s[0] == '/' && s[1] == '/') {
        assert Collapsed(s)[1..] == Collapsed(s[1..]);
        FreeTail(Collapsed(s), '/', '/');
      }
    }
  }

  lemma {:induction false} CollapsedDots(s: string)
    requires NoPair(s, '.', '.') && NoPair(s, '.', '/')
    ensures NoPair(Collapsed(s), '.', '.') && NoPair(Collapsed(s), '.', '/')
  {
    if s != [] {
      FreeTail(s, '.', '.');
      FreeTail(s, '.', '/');
      CollapsedDots(s[1..]);
      CollapsedFree(s[1..]);
      if !(|s| > 1 && s[0] == '/' && s[1] == '/') { FirstFree(s[0], Collapsed(s[1..])); }
    }
  }

  lemma {:induction false} CollapsedKeepsOut(s: string, c: char)
    requires c !in s
    ensures c !in Collapsed(s)
  {
    if s != [] { CollapsedKeepsOut(s[1..], c); }
  }

  // ---- The whole function ----

  function Rooted(s: string): string {
    if s != [] && s[0] == '/' then s else "/" + s
  }

  /** Each of the first two loops runs its body at most once; the third collapses. */
  function Secured(path: string): string {
    Rooted(Collapsed(Unhidden(Undotted(ReplaceAll(path, "\\", "/")))))
  }

  /** `secure_path_`, loop by loop. */
  method SecurePath(path: string) returns (result: string)
    ensures result == Secured(path)
  {
    result := ReplaceAll(path, "\\", "/");
    ghost var slashed := result;
    UndottedFree(slashed);
    ContainsPair(result, '.', '.');
    while Contains(result, "..")
      invariant result == slashed || result == Undotted(slashed)
      invariant Contains(result, "..") <==> !NoPair(result, '.', '.')
      decreases |result|
    {
      Shrinks(result, '.', '.', "");
      result := ReplaceAll(result, "..", "");
      ContainsPair(result, '.', '.');
    }
    Unchanged(result, '.', '.', "");
    assert result == Undotted(slashed);
    ghost var undotted := result;
    UnhiddenFree(undotted);
    ContainsPair(result, '.', '/');
    while Contains(result, "./")
      invariant result == undotted || result == Unhidden(undotted)
      invariant Contains(result, "./") <==> !NoPair(result, '.', '/')
      decreases |result|
    {
      Shrinks(result, '.', '/', "/");
      result := ReplaceAll(result, "./", "/");
      ContainsPair(result, '.', '/');
    }
    Unchanged(result, '.', '/', "/");
    assert result == Unhidden(undotted);
    ghost var unhidden := result;
    ContainsPair(result, '/', '/');
    while Contains(result, "//")
      invariant Collapsed(result) == Collapsed(unhidden)
      invariant Contains(result, "//") <==> !NoPair(result, '/', '/')
      decreases |result|
    {
      Shrinks(result, '/', '/', "/");
      HalvedKeeps(result);
      result := ReplaceAll(result, "//", "/");
      ContainsPair(result, '/', '/');
    }
    CollapsedFree(result);
    if !(result != [] && result[0] == '/') { result := "/" + result; }
  }

  // ---- What it promises ----

  predicate Clean(s: string) {
    s != [] && s[0] == '/' && '\\' !in s && !Contains(s, "..") && !Contains(s, "./") && !Contains(s, "//")
  }

  lemma {:induction false} RootedFree(s: string, a: char, b: char)
    requires NoPair(s, a, b) && (a != '/' || b == '/')
    ensures NoPair(Rooted(s), a, b)
  {
    if Rooted(s) != s {
      FreeTail("/" + s, a, b);
      assert ("/" + s)[1..] == s;
    }
  }

  /** The result is clean, whatever the path. */
  lemma {:induction false} ResultClean(path: string)
    ensures Clean(Secured(path))
  {
    var slashed := ReplaceAll(path, "\\", "/");
    var undotted := Undotted(slashed);
    var unhidden := Unhidden(undotted);
    var text := Collapsed(unhidden);
    Banishes(path, '\\', '/');
    KeepsOut(slashed, "..", "", '\\');
    KeepsOut(undotted, "./", "/", '\\');
    CollapsedKeepsOut(unhidden, '\\');
    UndottedFree(slashed);
    UnhiddenFree(undotted);
    CollapsedFree(unhidden);
    CollapsedDots(unhidden);
    RootedFree(text, '.', '.');
    RootedFree(text, '.', '/');
    RootedFree(text, '/', '/');
    ContainsPair(Rooted(text), '.', '.');
    ContainsPair(Rooted(text), '.', '/');
    ContainsPair(Rooted(text), '/', '/');
  }

  /** The clean paths are exactly those the function leaves alone. */
  lemma {:induction false} CleanExactly(path: string)
    ensures Clean(path) <==> Secured(path) == path
  {
    ResultClean(path);
    if Clean(path) {
      ContainsPair(path, '.', '.');
      ContainsPair(path, '.', '/');
      ContainsPair(path, '/', '/');
      Banishes(path, '\\', '/');
      Unchanged(path, '.', '.', "");
      Unchanged(path, '.', '/', "/");
      CollapsedFree(path);
    }
  }

  lemma {:induction false} Idempotent(path: string)
    ensures Secured(Secured(path)) == Secured(path)
  {
    ResultClean(path);
    CleanExactly(Secured(path));
  }

  // ---- Why clean paths are safe ----

  /** A path between its slashes. */
  function Components(s: string): (cs: seq<string>)
    ensures cs != []
  {
    if s == [] then [""]
    else if s[0] == '/' then [""] + Components(s[1..])
    else
      var rest := Components(s[1..]);
      [[s[0]] + rest[0]] + rest[1..]
  }

  /** How far below its start a walk along the components ends. */
  function Depth(cs: seq<string>): int {
    if cs == [] then 0
    else
      var n := |cs| - 1;
      Depth(cs[..n]) + if cs[n] == ".." then -1 else if cs[n] == "" || cs[n] == "." then 0 else 1
  }

  /** What the components of a clean text look like. */
  predicate TidyComponents(s: string, cs: seq<string>)
    requires cs != []
  {
    && (cs[0] == "" <==> s == [] || s[0] == '/')
    && (cs[0] != "" ==> s != [] && cs[0][0] == s[0])
    && (|cs| == 1 <==> '/' !in s)
    && (forall k | 0 <= k < |cs| :: NoPair(cs[k], '.', '.'))
    && (forall k | 0 < k < |cs| - 1 :: cs[k] != "")
    && (forall k | 0 <= k < |cs| - 1 && cs[k] != "" :: cs[k][|cs[k]| - 1] != '.')
  }

  lemma {:induction false} ComponentsClean(s: string)
    requires NoPair(s, '.', '.') && NoPair(s, '.', '/') && NoPair(s, '/', '/')
    ensures TidyComponents(s, Components(s))
  {
    hide NoPair, TidyComponents;
    if s == [] {
      NoComponents();
    } else {
      FreeTail(s, '.', '.');
      FreeTail(s, '.', '/');
      FreeTail(s, '/', '/');
      ComponentsClean(s[1..]);
      if s[0] == '/' { SlashFirst(s); } else { NameFirst(s); }
    }
  }

  lemma {:induction false} NoComponents()
    ensures TidyComponents("", Components(""))
  {
  }

  lemma {:induction false} SlashFirst(s: string)
    requires s != [] && s[0] == '/' && (|s| > 1 ==> s[1] != '/')
    requires TidyComponents(s[1..], Components(s[1..]))
    ensures TidyComponents(s, Components(s))
  {
    var rest, cs := Components(s[1..]), Components(s);
    assert forall k | 0 < k < |cs| :: cs[k] == rest[k - 1];
  }

  lemma {:induction false} NameFirst(s: string)
    requires s != [] && s[0] != '/' && (|s| > 1 && s[0] == '.' ==> s[1] != '.' && s[1] != '/')
    requires TidyComponents(s[1..], Components(s[1..]))
    ensures TidyComponents(s, Components(s))
  {
    var rest, cs := Components(s[1..]), Components(s);
    assert cs[0] == [s[0]] + rest[0] && cs[0][1..] == rest[0];
    FreeTail(cs[0], '.', '.');
    assert forall k | 0 < k < |cs| :: cs[k] == rest[k];
    assert rest[0] != "" ==> cs[0][|cs[0]| - 1] == rest[0][|rest[0]| - 1];
  }

  lemma {:induction false} FreeIsNoParent(c: string)
    requires NoPair(c, '.', '.')
    ensures c != ".."
  {
    assert !NoPair("..", '.', '.') by {
      assert ".."[0] == '.' && ".."[1] == '.';
    }
  }

  lemma {:induction false} NeverBelow(cs: seq<string>, k: nat)
    requires k <= |cs| && forall i | 0 <= i < |cs| :: cs[i] != ".."
    ensures 0 <= Depth(cs[..k])
  {
    if k > 0 {
      assert cs[..k][..k - 1] == cs[..k - 1];
      NeverBelow(cs, k - 1);
    }
  }

  /** Followed component by component, a secured path never leaves the directory it is
      appended to, and names only its last component emptily or with a final dot. */
  lemma {:induction false} StaysInside(path: string)
    ensures var cs := Components(Secured(path));
            && cs[0] == "" && |cs| > 1
            && (forall k | 0 <= k <= |cs| :: 0 <= Depth(cs[..k]))
            && (forall k | 0 < k < |cs| - 1 :: cs[k] != "" && cs[k][|cs[k]| - 1] != '.')
  {
    var s := Secured(path);
    ResultClean(path);
    ContainsPair(s, '.', '.');
    ContainsPair(s, '.', '/');
    ContainsPair(s, '/', '/');
    ComponentsClean(s);
    var cs := Components(s);
    forall k | 0 <= k < |cs| ensures cs[k] != ".." { FreeIsNoParent(cs[k]); }
    forall k | 0 <= k <= |cs| ensures 0 <= Depth(cs[..k]) { NeverBelow(cs, k); }
  }

  // ---- What is kept ----

  /** A path cut at its slashes of either kind, without the dots. */
  function Parts(s: string): (ps: seq<string>)
    ensures ps != []
  {
    if s == [] then [""]
    else
      var rest := Parts(s[1..]);
      if s[0] == '/' || s[0] == '\\' then [""] + rest
      else if s[0] == '.' then rest
      else [[s[0]] + rest[0]] + rest[1..]
  }

  function NonEmpty(ps: seq<string>): seq<string> {
    if ps == [] then [] else (if ps[0] == "" then [] else [ps[0]]) + NonEmpty(ps[1..])
  }

  lemma {:induction false} SlashedKeeps(s: string)
    ensures Parts(ReplaceAll(s, "\\", "/")) == Parts(s)
  {
    if s != [] {
      var rest := ReplaceAll(s[1..], "\\", "/");
      assert s[..1] == [s[0]];
      assert ReplaceAll(s, "\\", "/")[1..] == rest;
      SlashedKeeps(s[1..]);
    }
  }

  lemma {:induction false} UndottedKeeps(s: string)
    ensures Parts(Undotted(s)) == Parts(s)
  {
    if |s| >= 2 {
      assert s[..2] == [s[0], s[1]] && s[1..][1..] == s[2..];
      if s[..2] == ".." {
        assert "" + Undotted(s[2..]) == Undotted(s[2..]);
        UndottedKeeps(s[2..]);
      } else {
        assert Undotted(s)[1..] == Undotted(s[1..]);
        UndottedKeeps(s[1..]);
      }
    }
  }

  lemma {:induction false} UnhiddenKeeps(s: string)
    ensures Parts(Unhidden(s)) == Parts(s)
  {
    if |s| >= 2 {
      assert s[..2] == [s[0], s[1]] && s[1..][1..] == s[2..];
      if s[..2] == "./" {
        assert Unhidden(s)[1..] == Unhidden(s[2..]);
        UnhiddenKeeps(s[2..]);
      } else {
        assert Unhidden(s)[1..] == Unhidden(s[1..]);
        UnhiddenKeeps(s[1..]);
      }
    }
  }

  lemma {:induction false} PartsStep(c: char, s: string)
    ensures Parts([c] + s) == if c == '/' || c == '\\' then [""] + Parts(s)
                              else if c == '.' then Parts(s)
                              else [[c] + Parts(s)[0]] + Parts(s)[1..]
  {
    assert ([c] + s)[1..] == s;
  }

  /** Slashes in a row only add empty parts behind the first. */
  predicate SameNames(after: seq<string>, before: seq<string>)
    requires after != [] && before != []
  {
    after[0] == before[0] && NonEmpty(after[1..]) == NonEmpty(before[1..])
  }

  lemma {:induction false} NamesStep(c: char, after: string, before: string)
    requires SameNames(Parts(after), Parts(before))
    ensures SameNames(Parts([c] + after), Parts([c] + before))
  {
    hide Parts;
    PartsStep(c, after);
    PartsStep(c, before);
    var a, b := Parts(after), Parts(before);
    assert ([""] + a)[1..] == a && ([""] + b)[1..] == b;
    assert ([[c] + a[0]] + a[1..])[1..] == a[1..] && ([[c] + b[0]] + b[1..])[1..] == b[1..];
  }

  lemma {:induction false} CollapsedKeeps(s: string)
    ensures SameNames(Parts(Collapsed(s)), Parts(s))
  {
    hide Parts, SameNames;
    if s == [] {
      NothingCollapsed();
    } else {
      CollapsedKeeps(s[1..]);
      assert s == [s[0]] + s[1..];
      if |s| > 1 && s[0] == '/' && s[1] == '/' {
        DoubleSlash(s);
      } else {
        NamesStep(s[0], Collapsed(s[1..]), s[1..]);
      }
    }
  }

  lemma {:induction false} NothingCollapsed()
    ensures SameNames(Parts(Collapsed("")), Parts(""))
  {
  }

  lemma {:induction false} DoubleSlash(s: string)
    requires |s| > 1 && s[0] == '/' && s[1] == '/' && SameNames(Parts(Collapsed(s[1..])), Parts(s[1..]))
    ensures SameNames(Parts(Collapsed(s[1..])), Parts(s))
  {
    hide Collapsed;
    assert Parts(s)[1..] == Parts(s[1..]);
  }

  /** The names of a path come through, all of them and in order, none merged with another;
      what is lost of them is dots. */
  lemma {:induction false} NamesKept(path: string)
    ensures NonEmpty(Parts(Secured(path))) == NonEmpty(Parts(path))
  {
    var slashed := ReplaceAll(path, "\\", "/");
    var unhidden := Unhidden(Undotted(slashed));
    SlashedKeeps(path);
    UndottedKeeps(slashed);
    UnhiddenKeeps(Undotted(slashed));
    CollapsedKeeps(unhidden);
    var text := Collapsed(unhidden);
    assert ("/" + text)[1..] == text;
  }
}
