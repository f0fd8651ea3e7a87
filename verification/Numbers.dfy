/** `std::stoul` / `std::stoull` and the printing they undo. */
module Numbers {
  import opened Results

  const TWO64: nat := 0x1_0000_0000_0000_0000
  const TWO32: nat := 0x1_0000_0000

  function Min(a: nat, b: nat): nat {
    if a < b then a else b
  }

  function Max(a: nat, b: nat): nat {
    if a < b then b else a
  }

  predicate IsSpace(c: char) {
    c == ' ' || c == '\t' || c == '\n' || c == '\r' || c == '\U{B}' || c == '\U{C}'
  }

  /** Value of a digit in base `b`, or -1. */
  function Digit(c: char, b: nat): (d: int)
    ensures -1 <= d < 16 && (d == -1 || d < b)
    ensures b >= 10 && '0' <= c <= '9' ==> d == c as int - '0' as int
  {
    var d :=
      if '0' <= c <= '9' then c as int - '0' as int
      else if 'a' <= c <= 'f' then 10 + (c as int - 'a' as int)
      else if 'A' <= c <= 'F' then 10 + (c as int - 'A' as int)
      else -1;
    if d < b then d else -1
  }

  function SkipSpaces(s: string): (t: string)
    ensures |t| <= |s|
  {
    if s != "" && IsSpace(s[0]) then SkipSpaces(s[1..]) else s
  }

  /** Value of the longest run of digits at the start of `s`, continuing from `acc`. */
  function RunValue(s: string, b: nat, acc: nat): nat {
    if s == "" || Digit(s[0], b) < 0 then acc
    else RunValue(s[1..], b, acc * b + Digit(s[0], b))
  }

  predicate StartsWithDigit(s: string, b: nat) {
    s != "" && Digit(s[0], b) >= 0
  }

  /** The optional `0x` prefix; it counts as one only before a digit. */
  function SkipPrefix(s: string, b: nat): string {
    if b == 16 && |s| >= 3 && s[0] == '0' && (s[1] == 'x' || s[1] == 'X') && StartsWithDigit(s[2..], b)
    then s[2..] else s
  }

  /** `std::stoul(s, nullptr, b)`: leading white space, a sign, digits, then anything.
      `None` stands for the exceptions `invalid_argument` and `out_of_range`. */
  function ParseUnsigned(s: string, b: nat): (r: Option<nat>)
    ensures r.Some? ==> r.value < TWO64
  {
    var t := SkipSpaces(s);
    var negative := t != "" && t[0] == '-';
    var u := if t != "" && (t[0] == '-' || t[0] == '+') then t[1..] else t;
    var digits := SkipPrefix(u, b);
    if !StartsWithDigit(digits, b) then None
    else
      var v := RunValue(digits, b, 0);
      if v >= TWO64 then None
      else Some(if negative && v > 0 then TWO64 - v else v)
  }

  function DigitChar(d: nat): (c: char)
    requires d < 16
  {
    if d < 10 then '0' + d as char else 'a' + (d - 10) as char
  }

  // ---- What a numeral is ----

  /** `c` is the digit worth `d`, in either letter case. */
  predicate Spells(c: char, d: nat) {
    d < 16 && (c == "0123456789abcdef"[d] || c == "0123456789ABCDEF"[d])
  }

  lemma {:induction false} DigitExactly(c: char, b: nat, d: nat)
    requires d < b <= 16
    ensures Digit(c, b) == d <==> Spells(c, d)
  {
    assert d < 10 ==> "0123456789abcdef"[d] == '0' + d as char == "0123456789ABCDEF"[d];
    assert d >= 10 ==> "0123456789abcdef"[d] == 'a' + (d - 10) as char && "0123456789ABCDEF"[d] == 'A' + (d - 10) as char;
  }

  /** `text` writes out the digits `ds` of base `b`, each in either letter case. */
  predicate Writes(text: string, ds: seq<nat>, b: nat) {
    |text| == |ds| && forall i | 0 <= i < |ds| :: ds[i] < b && Spells(text[i], ds[i])
  }

  function Value(ds: seq<nat>, b: nat): nat {
    if ds == [] then 0 else Value(ds[..|ds| - 1], b) * b + ds[|ds| - 1]
  }

  predicate NoDigitFirst(s: string, b: nat) {
    s == "" || forall d | 0 <= d < b :: !Spells(s[0], d)
  }

  /** The zero is not the first half of a prefix. */
  predicate NoPrefix(text: string, rest: string) {
    text != "0" || |rest| < 2 || (rest[0] != 'x' && rest[0] != 'X') || NoDigitFirst(rest[1..], 16)
  }

  lemma {:induction false} DigitOfChar(d: nat, b: nat)
    requires d < b <= 16
    ensures Digit(DigitChar(d), b) == d
  {
  }

  /** No digit is white space, a sign, a line break or any other character with a meaning here. */
  lemma {:induction false} DigitsArePlain(c: char, b: nat)
    requires Digit(c, b) >= 0
    ensures !IsSpace(c) && c != '-' && c != '+' && c != ':' && c != '\0' && c != 'x' && c != 'X'
  {
  }

  predicate AllDigits(s: string, b: nat) {
    forall c | c in s :: Digit(c, b) >= 0
  }

  /** `std::to_string` for base 10, lower-case hexadecimal for base 16. */
  function Digits(n: nat, b: nat): (s: string)
    requires 2 <= b <= 16
    ensures s != "" && AllDigits(s, b)
    decreases n
  {
    DivModFacts(n, b);
    DigitOfChar(n % b, b);
    if n < b then [DigitChar(n)] else Digits(n / b, b) + [DigitChar(n % b)]
  }

  lemma {:induction false} DivModFacts(n: nat, b: nat)
    requires b >= 2
    ensures 0 <= n / b && n / b * b + n % b == n && 0 <= n % b < b
    ensures n > 0 ==> n / b < n
    ensures n < b ==> n % b == n
  {
    var q, r := n / b, n % b;
    assert q * b + r == n;
    Product(q, b);
  }

  lemma {:induction false} Product(q: nat, b: nat)
    requires b >= 2
    ensures q * b >= q + q && (q >= 1 ==> q * b >= b)
  {
    if q > 0 {
      Product(q - 1, b);
      assert q * b == (q - 1) * b + b;
    }
  }

  lemma {:induction false} RunStops(rest: string, b: nat, n: nat)
    requires !StartsWithDigit(rest, b)
    ensures RunValue(rest, b, n) == n
  {
  }

  lemma {:induction false} SkipAll(spaces: string, t: string)
    requires forall c | c in spaces :: IsSpace(c)
    requires t != "" && !IsSpace(t[0])
    ensures SkipSpaces(spaces + t) == t
  {
    if spaces == "" {
      assert spaces + t == t;
    } else {
      assert spaces[0] in spaces;
      assert (spaces + t)[1..] == spaces[1..] + t;
      SkipAll(spaces[1..], t);
    }
  }

  lemma {:induction false} DigitFirstExactly(s: string, b: nat)
    requires b <= 16
    ensures StartsWithDigit(s, b) <==> !NoDigitFirst(s, b)
  {
    hide Digit;
    if s != "" {
      forall d | 0 <= d < b ensures Digit(s[0], b) == d <==> Spells(s[0], d) { DigitExactly(s[0], b, d); }
      var worth := Digit(s[0], b);
      assert worth >= 0 ==> Spells(s[0], worth);
    }
  }

  lemma {:induction false} RunValueIs(text: string, ds: seq<nat>, b: nat, rest: string)
    requires b <= 16 && Writes(text, ds, b)
    ensures RunValue(text + rest, b, 0) == RunValue(rest, b, Value(ds, b))
    decreases |text|
  {
    hide Digit, Spells;
    if text == "" {
      assert text + rest == rest;
    } else {
      var n := |text| - 1;
      var tail := [text[n]] + rest;
      assert text + rest == text[..n] + tail && tail[1..] == rest;
      RunValueIs(text[..n], ds[..n], b, tail);
      DigitExactly(text[n], b, ds[n]);
    }
  }

  lemma {:induction false} FirstIsPlain(text: string, ds: seq<nat>, b: nat)
    requires b <= 16 && text != "" && Writes(text, ds, b)
    ensures StartsWithDigit(text, b) && !IsSpace(text[0]) && text[0] != '-' && text[0] != '+'
    ensures forall i | 0 <= i < |text| :: text[i] != 'x' && text[i] != 'X' && text[i] != '\n'
  {
    hide Digit, Spells;
    forall i | 0 <= i < |text|
      ensures Digit(text[i], b) >= 0 && !IsSpace(text[i])
      ensures text[i] != '-' && text[i] != '+' && text[i] != 'x' && text[i] != 'X' && text[i] != '\n' {
      DigitExactly(text[i], b, ds[i]);
      DigitsArePlain(text[i], b);
    }
    assert Digit(text[0], b) >= 0;
  }

  /** A numeral behind an optional prefix is not cut further. */
  lemma {:induction false} PrefixSkipped(prefix: string, text: string, ds: seq<nat>, b: nat, rest: string)
    requires b <= 16 && text != "" && Writes(text, ds, b)
    requires prefix == "" || (b == 16 && (prefix == "0x" || prefix == "0X"))
    requires prefix == "" && b == 16 ==> NoPrefix(text, rest)
    ensures SkipPrefix(prefix + text + rest, b) == text + rest
  {
    hide Digit, Spells, Writes;
    var u := prefix + text + rest;
    FirstIsPlain(text, ds, b);
    if prefix == "" {
      assert u == text + rest;
      if text == "0" && |rest| >= 2 {
        assert u[2..] == rest[1..];
        DigitFirstExactly(rest[1..], b);
      }
    } else {
      assert u[2..] == text + rest;
    }
  }

  lemma {:induction false} BehindSign(spaces: string, sign: string, u: string, b: nat)
    requires forall c | c in spaces :: IsSpace(c)
    requires sign == "" || sign == "+" || sign == "-"
    requires u != "" && !IsSpace(u[0]) && u[0] != '+' && u[0] != '-'
    ensures ParseUnsigned(spaces + (sign + u), b)
            == var digits := SkipPrefix(u, b); var v := RunValue(digits, b, 0);
               if !StartsWithDigit(digits, b) || v >= TWO64 then None
               else Some(if sign == "-" && v > 0 then TWO64 - v else v)
  {
    hide SkipSpaces, SkipPrefix, RunValue, StartsWithDigit;
    var t := sign + u;
    SkipAll(spaces, t);
    assert sign != "" ==> t[1..] == u;
    assert sign == "" ==> t == u;
  }

  /** Every numeral is read as what it is worth, in any letter case: behind white space, a
      sign and a prefix, and before whatever is no digit. A minus sign wraps around. */
  lemma {:induction false} NumeralReads(spaces: string, sign: string, prefix: string, text: string, ds: seq<nat>, rest: string, b: nat)
    requires b == 10 || b == 16
    requires forall c | c in spaces :: c in " \t\n\r\U{B}\U{C}"
    requires sign == "" || sign == "+" || sign == "-"
    requires prefix == "" || (b == 16 && (prefix == "0x" || prefix == "0X"))
    requires text != "" && Writes(text, ds, b) && NoDigitFirst(rest, b)
    requires prefix == "" && b == 16 ==> NoPrefix(text, rest)
    ensures ParseUnsigned(spaces + (sign + (prefix + text + rest)), b)
            == if Value(ds, b) >= TWO64 then None
               else Some(if sign == "-" && Value(ds, b) > 0 then TWO64 - Value(ds, b) else Value(ds, b))
  {
    hide Digit, Spells, Writes, SkipPrefix, NoDigitFirst, NoPrefix, RunValue, Value, ParseUnsigned;
    var u := prefix + text + rest;
    FirstIsPlain(text, ds, b);
    assert u[0] == if prefix == "" then text[0] else '0';
    BehindSign(spaces, sign, u, b);
    PrefixSkipped(prefix, text, ds, b, rest);
    RunValueIs(text, ds, b, rest);
    DigitFirstExactly(rest, b);
    RunStops(rest, b, Value(ds, b));
  }

  /** Without a digit behind white space and sign there is no number. */
  lemma {:induction false} NoNumeral(spaces: string, sign: string, rest: string, b: nat)
    requires b == 10 || b == 16
    requires forall c | c in spaces :: c in " \t\n\r\U{B}\U{C}"
    requires sign == "+" || sign == "-" || (sign == "" && (rest == "" || rest[0] !in " \t\n\r\U{B}\U{C}+-"))
    requires NoDigitFirst(rest, b)
    ensures ParseUnsigned(spaces + sign + rest, b) == None
  {
    hide SkipPrefix, SkipSpaces, NoDigitFirst;
    var t := sign + rest;
    assert spaces + sign + rest == spaces + t;
    if t == "" { SkipToEnd(spaces); } else { SkipAll(spaces, t); }
    assert sign != "" ==> t[1..] == rest;
    assert sign == "" ==> t == rest;
    DigitFirstExactly(rest, b);
    NoPrefixHere(rest, b);
  }

  lemma {:induction false} SkipToEnd(spaces: string)
    requires forall c | c in spaces :: IsSpace(c)
    ensures SkipSpaces(spaces + "") == ""
  {
    assert spaces + "" == spaces;
    if spaces != "" {
      assert spaces[0] in spaces;
      assert spaces[1..] + "" == spaces[1..];
      SkipToEnd(spaces[1..]);
    }
  }

  lemma {:induction false} NoPrefixHere(s: string, b: nat)
    requires b >= 1 && !StartsWithDigit(s, b)
    ensures SkipPrefix(s, b) == s
  {
  }

  function Worths(n: nat, b: nat): (ds: seq<nat>)
    requires 2 <= b <= 16
    ensures ds != []
    decreases n
  {
    DivModFacts(n, b);
    if n < b then [n] else Worths(n / b, b) + [n % b]
  }

  /** A printed number is the numeral of that worth without leading zeros. */
  lemma {:induction false} DigitsWrite(n: nat, b: nat)
    requires 2 <= b <= 16
    ensures Writes(Digits(n, b), Worths(n, b), b) && Value(Worths(n, b), b) == n
    ensures Worths(n, b)[0] != 0 || Worths(n, b) == [0]
    decreases n
  {
    hide Digit, Spells;
    DivModFacts(n, b);
    DigitOfChar(n % b, b);
    DigitExactly(DigitChar(n % b), b, n % b);
    if n >= b {
      DigitsWrite(n / b, b);
      assert Worths(n, b)[..|Worths(n, b)| - 1] == Worths(n / b, b);
    }
  }

  /** Printing and reading back, with white space before and other text after. */
  lemma {:induction false} PrintThenParse(spaces: string, n: nat, b: nat, rest: string)
    requires b == 10 || b == 16
    requires n < TWO64
    requires forall c | c in spaces :: c in " \t\n\r\U{B}\U{C}"
    requires !StartsWithDigit(rest, b) && (rest == "" || (rest[0] != 'x' && rest[0] != 'X'))
    ensures ParseUnsigned(spaces + Digits(n, b) + rest, b) == Some(n)
  {
    hide Digits, Worths, Digit, ParseUnsigned, Writes, Spells, Value, NoDigitFirst, StartsWithDigit;
    DigitsWrite(n, b);
    DigitFirstExactly(rest, b);
    NumeralReads(spaces, "", "", Digits(n, b), Worths(n, b), rest, b);
    assert spaces + ("" + ("" + Digits(n, b) + rest)) == spaces + Digits(n, b) + rest;
  }
}
