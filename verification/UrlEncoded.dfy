/** URL-encoded parameters: text is cut into pairs, and the pairs are stored in a map
    in which keys ending in "[]" collect lists. */
module UrlEncoded {
  import opened Results

  // ---- Reading pairs ----

  datatype Pair = Pair(key: string, value: string)

  /** How far `*(char_ - stops)` reads. */
  function Reach(s: string, stops: set<char>): (n: nat)
    ensures n <= |s|
    ensures forall i | 0 <= i < n :: s[i] !in stops
    ensures n < |s| ==> s[n] in stops
  {
    if s == [] || s[0] in stops then 0 else
      var n := Reach(s[1..], stops);
      assert forall i | 0 < i < n + 1 :: s[i] == s[1..][i - 1];
      n + 1
  }

  /** A key up to '&' or '=', an optional '=', a value up to '&'; the rest starts with '&' or is empty. */
  function ParsePair(s: string): (r: (Pair, string))
    ensures |r.1| <= |s|
    ensures r.1 != [] ==> r.1[0] == '&'
    ensures GoodPair(r.0)
  {
    var k := Reach(s, {'&', '='});
    var tail := if k < |s| && s[k] == '=' then s[k + 1..] else s[k..];
    var v := Reach(tail, {'&'});
    (Pair(s[..k], tail[..v]), tail[v..])
  }

  /** `UrlEncodedDataParser % '&'`: reads every text to its end. */
  function ParsePairs(s: string): (r: seq<Pair>)
    ensures r != []
    decreases |s|
  {
    var (p, rest) := ParsePair(s);
    if rest == [] then [p] else [p] + ParsePairs(rest[1..])
  }

  // ---- Writing pairs ----

  function PrintPair(p: Pair): string { p.key + "=" + p.value }

  function PrintPairs(pairs: seq<Pair>): string
    requires pairs != []
  {
    if |pairs| == 1 then PrintPair(pairs[0]) else PrintPair(pairs[0]) + "&" + PrintPairs(pairs[1..])
  }

  predicate GoodPair(p: Pair) {
    '&' !in p.key && '=' !in p.key && '&' !in p.value
  }

  lemma {:induction false} ReachIs(s: string, stops: set<char>, n: nat)
    requires n <= |s|
    requires forall i | 0 <= i < n :: s[i] !in stops
    requires n < |s| ==> s[n] in stops
    ensures Reach(s, stops) == n
  {
  }

  lemma {:induction false} ParsePrinted(p: Pair, rest: string)
    requires GoodPair(p) && (rest != [] ==> rest[0] == '&')
    ensures ParsePair(PrintPair(p) + rest) == (p, rest)
  {
    var s := PrintPair(p) + rest;
    var k := |p.key|;
    var tail := p.value + rest;
    assert s[..k] == p.key && s[k] == '=' && s[k + 1..] == tail;
    forall i | 0 <= i < k ensures s[i] !in {'&', '='} { assert s[i] in p.key; }
    ReachIs(s, {'&', '='}, k);
    forall i | 0 <= i < |p.value| ensures tail[i] !in {'&'} { assert tail[i] in p.value; }
    ReachIs(tail, {'&'}, |p.value|);
  }

  /** The text of pairs is read back as the pairs exactly when no key holds '&' or '='
      and no value holds '&'. */
  lemma {:induction false} PairsRoundTrip(pairs: seq<Pair>)
    requires pairs != []
    ensures ParsePairs(PrintPairs(pairs)) == pairs <==> forall i | 0 <= i < |pairs| :: GoodPair(pairs[i])
  {
    AlwaysGood(PrintPairs(pairs));
    if forall i | 0 <= i < |pairs| :: GoodPair(pairs[i]) { PrintThenParse(pairs); }
  }

  lemma {:induction false} PrintThenParse(pairs: seq<Pair>)
    requires pairs != [] && forall i | 0 <= i < |pairs| :: GoodPair(pairs[i])
    ensures ParsePairs(PrintPairs(pairs)) == pairs
  {
    hide ParsePair;
    var s := PrintPairs(pairs);
    if |pairs| == 1 {
      ParsePrinted(pairs[0], "");
      assert s + "" == s;
    } else {
      var rest := "&" + PrintPairs(pairs[1..]);
      assert s == PrintPair(pairs[0]) + rest;
      ParsePrinted(pairs[0], rest);
      assert rest[1..] == PrintPairs(pairs[1..]);
      PrintThenParse(pairs[1..]);
    }
  }

  lemma {:induction false} AlwaysGood(s: string)
    ensures forall i | 0 <= i < |ParsePairs(s)| :: GoodPair(ParsePairs(s)[i])
    decreases |s|
  {
    hide ParsePair, GoodPair;
    var (p, rest) := ParsePair(s);
    if rest != [] { AlwaysGood(rest[1..]); }
  }

  /** Any text at all is read to the same pairs as their own printed form. */
  lemma {:induction false} ParseIsCanonical(s: string)
    ensures ParsePairs(PrintPairs(ParsePairs(s))) == ParsePairs(s)
  {
    AlwaysGood(s);
    PrintThenParse(ParsePairs(s));
  }

  // ---- Every text ----

  /** A pair without a value may also be written without the '='. */
  function Spelled(p: Pair, bare: bool): string {
    if bare then p.key else PrintPair(p)
  }

  function SpelledAll(pairs: seq<Pair>, bare: seq<bool>): string
    requires |pairs| == |bare| > 0
  {
    if |pairs| == 1 then Spelled(pairs[0], bare[0])
    else Spelled(pairs[0], bare[0]) + "&" + SpelledAll(pairs[1..], bare[1..])
  }

  predicate CanSpell(pairs: seq<Pair>, bare: seq<bool>) {
    |pairs| == |bare| > 0 && forall i | 0 <= i < |pairs| :: GoodPair(pairs[i]) && (bare[i] ==> pairs[i].value == "")
  }

  lemma {:induction false} ParseBare(key: string, rest: string)
    requires GoodPair(Pair(key, "")) && (rest != [] ==> rest[0] == '&')
    ensures ParsePair(key + rest) == (Pair(key, ""), rest)
  {
    var s, k := key + rest, |key|;
    forall i | 0 <= i < k ensures s[i] !in {'&', '='} { assert s[i] in key; }
    ReachIs(s, {'&', '='}, k);
    assert s[..k] == key && s[k..] == rest;
    ReachIs(rest, {'&'}, 0);
  }

  lemma {:induction false} SpelledRead(pairs: seq<Pair>, bare: seq<bool>)
    requires CanSpell(pairs, bare)
    ensures ParsePairs(SpelledAll(pairs, bare)) == pairs
    decreases |pairs|
  {
    hide ParsePair;
    var first := Spelled(pairs[0], bare[0]);
    var rest := if |pairs| == 1 then "" else "&" + SpelledAll(pairs[1..], bare[1..]);
    assert SpelledAll(pairs, bare) == first + rest;
    if bare[0] {
      ParseBare(pairs[0].key, rest);
      assert pairs[0] == Pair(pairs[0].key, "");
    } else {
      ParsePrinted(pairs[0], rest);
    }
    if |pairs| > 1 {
      assert rest[1..] == SpelledAll(pairs[1..], bare[1..]);
      SpelledRead(pairs[1..], bare[1..]);
    }
  }

  lemma {:induction false} SpellingOfOne(s: string) returns (bare: bool)
    ensures var (p, rest) := ParsePair(s); s == Spelled(p, bare) + rest && (bare ==> p.value == "")
  {
    hide Reach;
    var k := Reach(s, {'&', '='});
    bare := !(k < |s| && s[k] == '=');
    var tail := if bare then s[k..] else s[k + 1..];
    var v := Reach(tail, {'&'});
    if bare { NoValue(s, k, v); } else { CutTwice(s, k, v); }
  }

  lemma {:induction false} CutTwice(s: string, k: nat, v: nat)
    requires k < |s| && s[k] == '=' && v <= |s[k + 1..]|
    ensures var tail := s[k + 1..]; s == s[..k] + "=" + tail[..v] + tail[v..]
  {
    var tail := s[k + 1..];
    assert tail == tail[..v] + tail[v..];
    assert s == s[..k] + "=" + tail;
  }

  lemma {:induction false} NoValue(s: string, k: nat, v: nat)
    requires k <= |s| && (k < |s| ==> s[k] == '&') && v <= |s[k..]|
    requires forall i | 0 <= i < v :: s[k..][i] != '&'
    ensures v == 0 && s == s[..k] + s[k..][v..]
  {
    var rest := s[k..];
    assert rest != "" ==> rest[0] == s[k];
  }

  lemma {:induction false} SpellingOf(s: string) returns (bare: seq<bool>)
    ensures CanSpell(ParsePairs(s), bare) && s == SpelledAll(ParsePairs(s), bare)
    decreases |s|
  {
    hide ParsePair, GoodPair, PrintPair;
    AlwaysGood(s);
    var (p, rest) := ParsePair(s);
    var first := SpellingOfOne(s);
    if rest == [] {
      bare := [first];
    } else {
      var more := SpellingOf(rest[1..]);
      bare := [first] + more;
      assert rest == "&" + rest[1..];
      assert ParsePairs(s) == [p] + ParsePairs(rest[1..]);
      assert bare[1..] == more && ParsePairs(s)[1..] == ParsePairs(rest[1..]);
    }
  }

  /** A text is read to some pairs exactly when it spells them: keys without '&' and '=',
      values without '&', and the '=' left out at most where there is no value. */
  lemma {:induction false} ReadsExactly(s: string, pairs: seq<Pair>)
    ensures ParsePairs(s) == pairs <==> exists bare :: CanSpell(pairs, bare) && s == SpelledAll(pairs, bare)
  {
    hide ParsePairs, SpelledAll, GoodPair;
    var found := SpellingOf(s);
    forall bare | CanSpell(pairs, bare) && s == SpelledAll(pairs, bare) ensures ParsePairs(s) == pairs {
      SpelledRead(pairs, bare);
    }
  }

  function Ampersands(s: string): nat {
    if s == [] then 0 else (if s[0] == '&' then 1 else 0) + Ampersands(s[1..])
  }

  lemma {:induction false} AmpersandsSplit(a: string, b: string)
    ensures Ampersands(a + b) == Ampersands(a) + Ampersands(b)
    ensures '&' !in a ==> Ampersands(a) == 0
  {
    if a == [] {
      assert a + b == b;
    } else {
      assert (a + b)[1..] == a[1..] + b;
      AmpersandsSplit(a[1..], b);
    }
  }

  /** Every '&' separates two pairs, empty or not. */
  lemma {:induction false} OnePairEach(s: string)
    ensures |ParsePairs(s)| == 1 + Ampersands(s)
    decreases |s|
  {
    var (p, rest) := ParsePair(s);
    PairAmpersands(s);
    if rest != [] { OnePairEach(rest[1..]); }
  }

  lemma {:induction false} PairAmpersands(s: string)
    ensures Ampersands(s) == Ampersands(ParsePair(s).1)
  {
    hide ParsePair, Ampersands;
    var rest := ParsePair(s).1;
    var used := s[..|s| - |rest|];
    PairText(s);
    AmpersandsSplit(used, rest);
    assert s == used + rest;
  }

  lemma {:induction false} PairText(s: string)
    ensures var rest := ParsePair(s).1;
            s[|s| - |rest|..] == rest && '&' !in s[..|s| - |rest|]
  {
    hide Reach;
    var k := Reach(s, {'&', '='});
    var from := if k < |s| && s[k] == '=' then k + 1 else k;
    var v := Reach(s[from..], {'&'});
    TakenText(s, from, v);
  }

  lemma {:induction false} TakenText(s: string, from: nat, v: nat)
    requires from <= |s| && v <= |s[from..]|
    requires '&' !in s[..from] && '&' !in s[from..][..v]
    ensures s[from + v..] == s[from..][v..] && '&' !in s[..from + v]
  {
    assert s[..from + v] == s[..from] + s[from..][..v];
  }

  // ---- Storing pairs ----

  /** A JSON value; `Other` stands for numbers, booleans and objects. */
  datatype Json = Null | Text(text: string) | Array(items: seq<Json>) | Other(id: int)

  type Entries = map<string, Json>

  predicate IsArrayKey(key: string) {
    |key| >= 2 && key[|key| - 2..] == "[]"
  }

  const NUL: char := '\0'

  /** `val.erase(val.find_last_not_of('\0') + 1)` */
  function Stripped(v: string): (r: string)
    ensures r <= v && (r != [] ==> r[|r| - 1] != NUL)
    ensures forall i | |r| <= i < |v| :: v[i] == NUL
  {
    if v == [] || v[|v| - 1] != NUL then v else Stripped(v[..|v| - 1])
  }

  /** One turn of the loop; `emplace_back` on a value that is no list throws. */
  function Store(e: Entries, p: Pair): Result<Entries> {
    if !IsArrayKey(p.key) then Ok(e[p.key := Text(Stripped(p.value))])
    else if Clash(e, p.key) then Err
    else Ok(e[p.key := Array(Before(e, p.key) + [Text(p.value)])])
  }

  /** The list a key starts from. */
  function Before(e: Entries, key: string): seq<Json> {
    if key in e && e[key].Array? then e[key].items else []
  }

  /** An array key under which something that is no list is already stored. */
  predicate Clash(e: Entries, key: string) {
    IsArrayKey(key) && key in e && !e[key].Null? && !e[key].Array?
  }

  /** The loop; the second value says whether it ran to its end rather than threw. */
  function StoreAll(e: Entries, pairs: seq<Pair>): (Entries, bool)
    decreases |pairs|
  {
    if pairs == [] then (e, true)
    else match Store(e, pairs[0])
      case Err => (e, false)
      case Ok(e') => StoreAll(e', pairs[1..])
  }

  class Params {
    var entries: Entries

    constructor ()
      ensures entries == map[]
    {
      entries := map[];
    }

    /** `params[key].emplace_back(val)` */
    method EmplaceBack(key: string, value: string) returns (ok: bool)
      requires key in entries
      modifies this
      ensures ok <==> old(entries)[key].Null? || old(entries)[key].Array?
      ensures ok ==>
                var items := if old(entries)[key].Array? then old(entries)[key].items else [];
                entries == old(entries)[key := Array(items + [Text(value)])]
      ensures !ok ==> entries == old(entries)
    {
      if entries[key].Null? { entries := entries[key := Array([])]; }
      ok := entries[key].Array?;
      if ok {
        entries := entries[key := Array(entries[key].items + [Text(value)])];
      }
    }

    /** `parse_urlencoded_param` */
    method Parse(data: string) returns (ok: bool)
      modifies this
      ensures (entries, ok) == StoreAll(old(entries), ParsePairs(data))
    {
      hide Stripped, IsArrayKey, ParsePairs;
      var parsed := ParsePairs(data);
      var i := 0;
      ok := true;
      while i < |parsed|
        invariant 0 <= i <= |parsed|
        invariant StoreAll(old(entries), parsed) == if ok then StoreAll(entries, parsed[i..]) else (entries, false)
        invariant !ok ==> i == |parsed|
      {
        var p := parsed[i];
        ghost var before := entries;
        assert parsed[i..][0] == p && parsed[i..][1..] == parsed[i + 1..];
        if IsArrayKey(p.key) {
          if p.key !in entries { entries := entries[p.key := Array([])]; }
          ok := EmplaceBack(p.key, p.value);
        } else {
          entries := entries[p.key := Text(Stripped(p.value))];
        }
        assert ok ==> Store(before, p).Ok? && entries == Store(before, p).value;
        assert Store(before, p) == if ok then Ok(entries) else Err;
        assert !ok ==> entries == before;
        i := if ok then i + 1 else |parsed|;
      }
    }
  }

  // ---- What ends up in the map ----

  function ValuesOf(pairs: seq<Pair>, key: string): seq<string> {
    if pairs == [] then []
    else (if pairs[0].key == key then [pairs[0].value] else []) + ValuesOf(pairs[1..], key)
  }

  function Texts(values: seq<string>): seq<Json> {
    seq(|values|, i requires 0 <= i < |values| => Text(values[i]))
  }

  function Lookup(e: Entries, key: string): Option<Json> {
    if key in e then Some(e[key]) else None
  }

  /** Under every array key stands a list, or null, or nothing. */
  predicate NoClash(e: Entries, pairs: seq<Pair>) {
    forall i | 0 <= i < |pairs| :: !Clash(e, pairs[i].key)
  }

  /** An array key is a name followed by "[]"; it clashes with anything stored but a list or
      null, and starts from the list that is stored. */
  lemma {:induction false} ClashExactly(e: Entries, key: string)
    ensures IsArrayKey(key) <==> exists name :: key == name + "[]"
    ensures Clash(e, key) <==> IsArrayKey(key) && key in e && (e[key].Text? || e[key].Other?)
    ensures forall items :: Lookup(e, key) == Some(Array(items)) ==> Before(e, key) == items
    ensures key !in e || !e[key].Array? ==> Before(e, key) == []
  {
    if IsArrayKey(key) { assert key == key[..|key| - 2] + "[]"; }
  }

  /** A plain key holds its last value, an array key its old list and then all values in order. */
  function Final(e: Entries, pairs: seq<Pair>, key: string): Option<Json> {
    var values := ValuesOf(pairs, key);
    if values == [] then Lookup(e, key)
    else if IsArrayKey(key) then Some(Array(Before(e, key) + Texts(values)))
    else Some(Text(Stripped(values[|values| - 1])))
  }

  lemma {:induction false} FinalStep(e: Entries, pairs: seq<Pair>, key: string)
    requires pairs != [] && Store(e, pairs[0]).Ok?
    ensures Final(Store(e, pairs[0]).value, pairs[1..], key) == Final(e, pairs, key)
  {
    hide IsArrayKey, Stripped, Texts, Before, Clash;
    var p := pairs[0];
    var e', rest := Store(e, p).value, ValuesOf(pairs[1..], key);
    if p.key == key {
      assert ValuesOf(pairs, key) == [p.value] + rest;
      if IsArrayKey(key) {
        BeforeStored(e, key, Before(e, key) + [Text(p.value)]);
        ListGrows(Before(e, key), p.value, rest);
      } else if rest != [] {
        assert ([p.value] + rest)[|rest|] == rest[|rest| - 1];
      }
    } else {
      assert ValuesOf(pairs, key) == rest;
      BeforeOther(e, key, p.key, e'[p.key]);
    }
  }

  lemma {:induction false} BeforeStored(e: Entries, key: string, items: seq<Json>)
    ensures Before(e[key := Array(items)], key) == items
  {
  }

  lemma {:induction false} BeforeOther(e: Entries, key: string, other: string, value: Json)
    requires key != other
    ensures Before(e[other := value], key) == Before(e, key)
  {
  }

  lemma {:induction false} ListGrows(items: seq<Json>, value: string, rest: seq<string>)
    ensures items + [Text(value)] + Texts(rest) == items + Texts([value] + rest)
    ensures rest == [] ==> items + [Text(value)] == items + Texts([value] + rest)
  {
    assert Texts([value] + rest) == [Text(value)] + Texts(rest);
  }

  /** The call throws exactly when an array key meets a stored value that is no list;
      otherwise every key ends up as `Final` says. */
  lemma {:induction false} StoredExactly(e: Entries, pairs: seq<Pair>)
    ensures StoreAll(e, pairs).1 <==> NoClash(e, pairs)
    ensures StoreAll(e, pairs).1 ==> forall key: string :: Lookup(StoreAll(e, pairs).0, key) == Final(e, pairs, key)
    decreases |pairs|
  {
    if pairs != [] && !Clash(e, pairs[0].key) {
      var e' := Store(e, pairs[0]).value;
      StoredExactly(e', pairs[1..]);
      ClashesStay(e, pairs);
      forall key: string | StoreAll(e, pairs).1
        ensures Lookup(StoreAll(e, pairs).0, key) == Final(e, pairs, key) {
        FinalStep(e, pairs, key);
      }
    }
  }

  /** A list ends with the values given for it, whole and in order, behind what was there. */
  lemma {:induction false} ListsGrow(e: Entries, pairs: seq<Pair>, name: string, i: nat)
    requires StoreAll(e, pairs).1 && i < |ValuesOf(pairs, name + "[]")|
    ensures var key := name + "[]"; var stored := Lookup(StoreAll(e, pairs).0, key);
            var old_ := if key in e && e[key].Array? then |e[key].items| else 0;
            && stored.Some? && stored.value.Array? && |stored.value.items| == old_ + |ValuesOf(pairs, key)|
            && stored.value.items[old_ + i] == Text(ValuesOf(pairs, key)[i])
  {
    var key := name + "[]";
    StoredExactly(e, pairs);
    ClashExactly(e, key);
    assert Lookup(StoreAll(e, pairs).0, key) == Final(e, pairs, key);
  }

  lemma {:induction false} ClashesStay(e: Entries, pairs: seq<Pair>)
    requires pairs != [] && Store(e, pairs[0]).Ok?
    ensures NoClash(Store(e, pairs[0]).value, pairs[1..]) <==> NoClash(e, pairs)
  {
    var e' := Store(e, pairs[0]).value;
    forall key: string ensures Clash(e', key) <==> Clash(e, key) {
    }
    assert forall i | 0 <= i < |pairs| - 1 :: pairs[1..][i] == pairs[i + 1];
    assert forall i | 0 < i < |pairs| :: pairs[i] == pairs[1..][i - 1];
  }

  /** A throw leaves in place what the pairs before it stored. */
  lemma {:induction false} ThrowKeepsEarlier(e: Entries, pairs: seq<Pair>, j: nat)
    requires j < |pairs| && NoClash(e, pairs[..j]) && Clash(e, pairs[j].key)
    ensures StoreAll(e, pairs) == (StoreAll(e, pairs[..j]).0, false)
    decreases j
  {
    if j > 0 {
      assert !Clash(e, pairs[..j][0].key);
      var e' := Store(e, pairs[0]).value;
      assert pairs[..j][1..] == pairs[1..][..j - 1];
      ClashesStay(e, pairs[..j]);
      assert Clash(e', pairs[j].key);
      ThrowKeepsEarlier(e', pairs[1..], j - 1);
    }
  }

  /** A printed form, read and stored into any map. */
  lemma {:induction false} FormStored(e: Entries, pairs: seq<Pair>)
    requires pairs != [] && forall i | 0 <= i < |pairs| :: GoodPair(pairs[i])
    requires NoClash(e, pairs)
    ensures var (e', ok) := StoreAll(e, ParsePairs(PrintPairs(pairs)));
            ok && forall key: string :: Lookup(e', key) == Final(e, pairs, key)
  {
    PrintThenParse(pairs);
    StoredExactly(e, pairs);
  }
}
