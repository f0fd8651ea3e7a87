/** Substring search, as `std::string_view::find` / `contains` perform it.
    Bytes are modelled as `char`; nothing below depends on the width of a byte. */
module Search {

  /** `p` occurs in `s` at offset `i`. */
  predicate OccursAt(s: string, p: string, i: int) {
    0 <= i && i + |p| <= |s| && s[i..i + |p|] == p
  }

  /** The least offset `>= k` at which `p` occurs in `s`, or -1 (the source's `npos`). */
  function FindFrom(s: string, p: string, k: nat): (i: int)
    requires k <= |s|
    ensures i == -1 || (k <= i && OccursAt(s, p, i))
    ensures forall j | k <= j && (i == -1 || j < i) :: !OccursAt(s, p, j)
    decreases |s| - k
  {
    if OccursAt(s, p, k) then k
    else if k == |s| then -1
    else FindFrom(s, p, k + 1)
  }

  function Find(s: string, p: string): (i: int)
    ensures i == -1 || OccursAt(s, p, i)
    ensures forall j :: 0 <= j && (i == -1 || j < i) ==> !OccursAt(s, p, j)
  {
    FindFrom(s, p, 0)
  }

  predicate Contains(s: string, p: string) {
    Find(s, p) >= 0
  }

  lemma {:induction false} ContainsAt(s: string, p: string, i: int)
    requires OccursAt(s, p, i)
    ensures Contains(s, p) && Find(s, p) <= i
  {
  }

  lemma {:induction false} FindIs(s: string, p: string, i: nat)
    requires OccursAt(s, p, i)
    requires forall j | 0 <= j < i :: !OccursAt(s, p, j)
    ensures Find(s, p) == i
  {
  }

  lemma {:induction false} OccursInPrefix(b: string, s: string, p: string, i: int)
    requires b <= s
    ensures OccursAt(b, p, i) <==> OccursAt(s, p, i) && i + |p| <= |b|
  {
    if 0 <= i && i + |p| <= |b| {
      assert b[i..i + |p|] == s[i..i + |p|];
    }
  }

  /** Searching a prefix of the stream finds exactly the stream's own first
      occurrence once that occurrence lies inside the prefix, and nothing before. */
  lemma {:induction false} FindInPrefix(b: string, s: string, p: string)
    requires b <= s
    ensures Find(b, p) == (var i := Find(s, p); if i >= 0 && i + |p| <= |b| then i else -1)
  {
    var i := Find(s, p);
    forall j ensures OccursAt(b, p, j) <==> OccursAt(s, p, j) && j + |p| <= |b| {
      OccursInPrefix(b, s, p, j);
    }
    if i >= 0 && i + |p| <= |b| {
      FindIs(b, p, i);
    } else if Find(b, p) >= 0 {
      ContainsAt(s, p, Find(b, p));
    }
  }

  /** Skipping a stretch without occurrences shifts the first occurrence. */
  lemma {:induction false} FindShift(s: string, p: string, m: nat)
    requires m <= |s|
    requires forall j | 0 <= j < m :: !OccursAt(s, p, j)
    ensures Find(s, p) == (var i := Find(s[m..], p); if i < 0 then -1 else m + i)
  {
    var t := s[m..];
    forall j | 0 <= j ensures OccursAt(t, p, j) <==> OccursAt(s, p, m + j) {
      if j + |p| <= |t| {
        assert t[j..j + |p|] == s[m + j..m + j + |p|];
      }
    }
    var i := Find(t, p);
    if i >= 0 {
      forall j | 0 <= j < m + i ensures !OccursAt(s, p, j) {
        if j >= m { assert !OccursAt(t, p, j - m); }
      }
      FindIs(s, p, m + i);
    } else {
      var k := Find(s, p);
      assert k >= m ==> !OccursAt(t, p, k - m);
    }
  }

  /** Where a pattern occurs, its characters stand in the text. */
  lemma {:induction false} OccursChar(s: string, p: string, i: int, k: nat)
    requires OccursAt(s, p, i) && k < |p|
    ensures 0 <= i + k < |s| && s[i + k] == p[k]
  {
    assert s[i..i + |p|][k] == s[i + k];
  }

  // ---- Single characters ----

  predicate Free(s: string, c: char) {
    forall i | 0 <= i < |s| :: s[i] != c
  }

  lemma {:induction false} FirstChar(s: string, c: char, i: nat)
    requires i < |s| && s[i] == c && forall j | 0 <= j < i :: s[j] != c
    ensures Find(s, [c]) == i
  {
    assert OccursAt(s, [c], i);
    forall j | 0 <= j < i ensures !OccursAt(s, [c], j) {
      if OccursAt(s, [c], j) { OccursChar(s, [c], j, 0); }
    }
    FindIs(s, [c], i);
  }

  lemma {:induction false} NoChar(s: string, c: char)
    requires Free(s, c)
    ensures Find(s, [c]) == -1
  {
    var i := Find(s, [c]);
    if i >= 0 { OccursChar(s, [c], i, 0); }
  }

  /** A line, its newline, and what follows. */
  lemma {:induction false} LineSplit(line: string, rest: string)
    requires Free(line, '\n')
    ensures Find(line + "\n" + rest, "\n") == |line|
    ensures (line + "\n" + rest)[..|line|] == line && (line + "\n" + rest)[|line| + 1..] == rest
  {
    var s := line + "\n" + rest;
    FirstChar(s, '\n', |line|);
    assert Find(s, "\n") == |line|;
  }
}
