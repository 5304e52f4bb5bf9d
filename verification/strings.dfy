/** The pieces of JavaScript's string library the pipeline relies on:
    `String.prototype.split` with a one-character separator, `trim`/`trimStart`,
    `Array.prototype.join`, and decimal rendering and reading of integers. */
module Strings {

  /** The characters `String.prototype.trim` removes: WhiteSpace and LineTerminator
      of ECMAScript, including the Unicode space separators. */
  predicate IsSpace(c: char) {
    || c == ' ' || c == '\t' || c == '\n' || c == '\r'
    || c == '\U{B}' || c == '\U{C}' || c == '\U{A0}' || c == '\U{1680}'
    || ('\U{2000}' <= c <= '\U{200A}')
    || c == '\U{2028}' || c == '\U{2029}' || c == '\U{202F}' || c == '\U{205F}'
    || c == '\U{3000}' || c == '\U{FEFF}'
  }

  predicate AllSpace(s: string) {
    forall i :: 0 <= i < |s| ==> IsSpace(s[i])
  }

  /** Number of occurrences of `d` in `s`. */
  function Count(s: string, d: char): nat {
    if |s| == 0 then 0 else (if s[0] == d then 1 else 0) + Count(s[1..], d)
  }

  /** `parts.join(d)`: the parts with one `d` between neighbours. */
  function Join(parts: seq<string>, d: char): string {
    if |parts| == 0 then ""
    else if |parts| == 1 then parts[0]
    else parts[0] + [d] + Join(parts[1..], d)
  }

  /** A join begins with its first part. */
  lemma JoinStarts(parts: seq<string>, d: char)
    requires |parts| > 0
    ensures |Join(parts, d)| >= |parts[0]| && Join(parts, d)[..|parts[0]|] == parts[0]
  {
  }

  /** A character in no part, other than the separator, is not in the join. */
  lemma {:induction false} JoinAbsent(parts: seq<string>, d: char, x: char)
    requires x != d
    requires forall i :: 0 <= i < |parts| ==> x !in parts[i]
    ensures x !in Join(parts, d)
    decreases |parts|
  {
    if |parts| > 1 {
      JoinAbsent(parts[1..], d, x);
    }
  }

  /** Joining one more part appends the separator and the part. */
  lemma {:induction false} JoinSnoc(parts: seq<string>, last: string, d: char)
    requires |parts| > 0
    ensures Join(parts + [last], d) == Join(parts, d) + [d] + last
    decreases |parts|
  {
    var all := parts + [last];
    if |parts| == 1 {
      assert all[1..] == [last];
    } else {
      assert all[1..] == parts[1..] + [last];
      JoinSnoc(parts[1..], last, d);
    }
  }

  /** `s.split(d)` for a one-character separator `d`: the maximal `d`-free pieces
      between separators, empty pieces included, so there is always one more piece
      than there are separators, and joining them back gives `s`. */
  function Split(s: string, d: char): (parts: seq<string>)
    ensures |parts| == Count(s, d) + 1
    ensures forall i :: 0 <= i < |parts| ==> d !in parts[i]
    ensures Join(parts, d) == s
  {
    if |s| == 0 then [""]
    else
      var rest := Split(s[1..], d);
      if s[0] == d then
        [""] + rest
      else
        assert d !in [s[0]] + rest[0];
        [[s[0]] + rest[0]] + rest[1..]
  }

  /** Splitting undoes joining, when no part contains the separator. */
  lemma {:induction false} SplitJoin(parts: seq<string>, d: char)
    requires |parts| > 0
    requires forall i :: 0 <= i < |parts| ==> d !in parts[i]
    ensures Split(Join(parts, d), d) == parts
    decreases |parts|, |parts[0]|
  {
    if |parts| == 1 {
      SplitNoSeparator(parts[0], d);
    } else if |parts[0]| == 0 {
      var tail := parts[1..];
      SplitJoin(tail, d);
      assert Join(parts, d) == [d] + Join(tail, d);
      assert ([d] + Join(tail, d))[1..] == Join(tail, d);
      assert parts == [""] + tail;
    } else {
      var c := parts[0][0];
      var shorter := [parts[0][1..]] + parts[1..];
      assert d !in shorter[0] by {
        assert forall x :: x in parts[0][1..] ==> x in parts[0];
      }
      forall i | 0 <= i < |shorter|
        ensures d !in shorter[i]
      {
        if i > 0 {
          assert shorter[i] == parts[i];
        }
      }
      SplitJoin(shorter, d);
      assert parts[0] == [c] + parts[0][1..];
      assert shorter[1..] == parts[1..];
      SplitConsChar(c, shorter, d);
      assert parts == [parts[0]] + parts[1..];
    }
  }

  /** A non-separator character in front of a join joins onto the first piece. */
  lemma SplitConsChar(c: char, parts: seq<string>, d: char)
    requires c != d && |parts| > 0
    requires Split(Join(parts, d), d) == parts
    ensures Join([[c] + parts[0]] + parts[1..], d) == [c] + Join(parts, d)
    ensures Split([c] + Join(parts, d), d) == [[c] + parts[0]] + parts[1..]
  {
    var j := [c] + Join(parts, d);
    var longer := [[c] + parts[0]] + parts[1..];
    assert longer[1..] == parts[1..];
    assert j[0] == c;
    assert j[1..] == Join(parts, d);
  }

  lemma {:induction false} SplitNoSeparator(s: string, d: char)
    requires d !in s
    ensures Split(s, d) == [s]
    decreases |s|
  {
    if |s| > 0 {
      assert d !in s[1..] by {
        assert forall x :: x in s[1..] ==> x in s;
      }
      SplitNoSeparator(s[1..], d);
      assert [s[0]] + s[1..] == s;
    }
  }

  /** Every character of a piece comes from the split string. */
  lemma SplitChars(s: string, d: char, i: nat)
    requires i < |Split(s, d)|
    ensures forall x :: x in Split(s, d)[i] ==> x in s
    decreases |s|
  {
    if |s| > 0 {
      var rest := Split(s[1..], d);
      if s[0] == d {
        if i > 0 {
          SplitChars(s[1..], d, i - 1);
        }
      } else if i == 0 {
        SplitChars(s[1..], d, 0);
      } else {
        SplitChars(s[1..], d, i);
      }
    }
  }

  /** `s.trimStart()`: the suffix of `s` left once leading spaces are removed. */
  function TrimStart(s: string): (r: string)
    ensures |r| <= |s| && r == s[|s| - |r|..]
    ensures AllSpace(s[..|s| - |r|])
    ensures r == "" || !IsSpace(r[0])
  {
    if |s| > 0 && IsSpace(s[0]) then TrimStart(s[1..]) else s
  }

  /** `s.trimEnd()`: the prefix of `s` left once trailing spaces are removed. */
  function TrimEnd(s: string): (r: string)
    ensures |r| <= |s| && r == s[..|r|]
    ensures AllSpace(s[|r|..])
    ensures r == "" || !IsSpace(r[|r| - 1])
  {
    if |s| > 0 && IsSpace(s[|s| - 1]) then
      var r := TrimEnd(s[..|s| - 1]);
      assert s[..|s| - 1][..|r|] == s[..|r|];
      assert s[|r|..] == s[..|s| - 1][|r|..] + [s[|s| - 1]];
      r
    else s
  }

  /** `s.trim()`. */
  function Trim(s: string): string {
    TrimEnd(TrimStart(s))
  }

  /** `s.trim()` is the substring `s[i..i + |r|]` with only spaces outside it and
      no space at either of its ends. */
  lemma TrimIsCore(s: string)
    ensures exists i :: (0 <= i <= i + |Trim(s)| <= |s| && Trim(s) == s[i..i + |Trim(s)|]
                         && AllSpace(s[..i]) && AllSpace(s[i + |Trim(s)|..]))
    ensures Trim(s) == "" || (!IsSpace(Trim(s)[0]) && !IsSpace(Trim(s)[|Trim(s)| - 1]))
  {
    var t := TrimStart(s);
    var r := TrimEnd(t);
    assert r == Trim(s);
    var i := |s| - |t|;
    assert t == s[i..];
    assert r == s[i..i + |r|];
    assert s[i + |r|..] == t[|r|..];
    assert AllSpace(s[i + |r|..]);
    assert AllSpace(s[..i]);
    assert 0 <= i <= i + |r| <= |s|;
    assert r == "" || r[0] == t[0];
  }

  lemma TrimStartEmpty(s: string)
    ensures TrimStart(s) == "" <==> AllSpace(s)
  {
    var r := TrimStart(s);
    assert r == "" ==> s[..|s|] == s;
    assert r == "" || r[0] == s[|s| - |r|];
  }

  lemma TrimEndEmpty(s: string)
    ensures TrimEnd(s) == "" <==> AllSpace(s)
  {
    var r := TrimEnd(s);
    assert r == "" ==> s[0..] == s;
    assert r == "" || r[|r| - 1] == s[|r| - 1];
  }

  /** A string trims to the empty string exactly when it is all blank. */
  lemma TrimEmptyIffBlank(s: string)
    ensures Trim(s) == "" <==> AllSpace(s)
  {
    var t := TrimStart(s);
    TrimStartEmpty(s);
    TrimEndEmpty(t);
    assert AllSpace(t) ==> t == "" by {
      assert t == "" || !IsSpace(t[0]);
    }
  }

  /** No space at either end. */
  predicate Trimmed(s: string) {
    s == "" || (!IsSpace(s[0]) && !IsSpace(s[|s| - 1]))
  }

  /** A string with no space at either end trims to itself. */
  lemma TrimTrimmed(s: string)
    requires Trimmed(s)
    ensures Trim(s) == s
  {
    assert TrimStart(s) == s;
  }

  /** The strings `trim` leaves unchanged are exactly those with no space at
      either end. */
  lemma TrimmedIff(s: string)
    ensures Trimmed(s) <==> Trim(s) == s
  {
    TrimIsCore(s);
    if Trimmed(s) {
      TrimTrimmed(s);
    }
  }

  /** Trimming is idempotent. */
  lemma TrimIdempotent(s: string)
    ensures Trim(Trim(s)) == Trim(s)
  {
    TrimIsCore(s);
    TrimTrimmed(Trim(s));
  }

  /** Trimming removes characters and adds none. */
  lemma TrimKeepsAbsent(s: string, c: char)
    requires c !in s
    ensures c !in Trim(s)
  {
    var t := TrimStart(s);
    assert forall x :: x in t ==> x in s;
    assert forall x :: x in TrimEnd(t) ==> x in t;
  }

  // ---- decimal digits ----

  predicate IsDigit(c: char) {
    '0' <= c <= '9'
  }

  predicate AllDigits(s: string) {
    forall i :: 0 <= i < |s| ==> IsDigit(s[i])
  }

  function DigitChar(d: nat): char
    requires d < 10
  {
    "0123456789"[d]
  }

  function DigitValue(c: char): nat
    requires IsDigit(c)
  {
    (c as int - '0' as int) as nat
  }

  /** The decimal numeral of a natural number, without leading zeros. */
  function NatToString(n: nat): string
    decreases n
  {
    if n < 10 then [DigitChar(n)] else NatToString(n / 10) + [DigitChar(n % 10)]
  }

  /** The value of a decimal numeral (the empty numeral reads as 0). */
  function DigitsValue(s: string): nat
    requires AllDigits(s)
  {
    if |s| == 0 then 0 else 10 * DigitsValue(s[..|s| - 1]) + DigitValue(s[|s| - 1])
  }

  /** `String(n)` for an integer `n` (below 10^21, where JavaScript would switch to
      exponent notation). */
  function IntToString(n: int): string {
    if n < 0 then "-" + NatToString(-n) else NatToString(n)
  }

  /** A canonical numeral: digits only, and no leading zero unless it is "0". */
  predicate Canonical(s: string) {
    |s| > 0 && AllDigits(s) && (s[0] != '0' || |s| == 1)
  }

  /** Reading back a rendered natural number gives the number, and the rendering is
      canonical. */
  lemma {:induction false} NatToStringRoundTrip(n: nat)
    ensures Canonical(NatToString(n))
    ensures DigitsValue(NatToString(n)) == n
    decreases n
  {
    if n >= 10 {
      NatToStringRoundTrip(n / 10);
      var s := NatToString(n);
      var p := NatToString(n / 10);
      assert s[..|s| - 1] == p;
      assert DigitValue(DigitChar(n % 10)) == n % 10;
    } else {
      assert DigitValue(DigitChar(n)) == n;
    }
  }

  /** Rendering the value of a canonical numeral gives the numeral back: two
      different canonical numerals never denote the same number. */
  lemma {:induction false} CanonicalRoundTrip(s: string)
    requires Canonical(s)
    ensures NatToString(DigitsValue(s)) == s
    decreases |s|
  {
    if |s| == 1 {
      assert DigitChar(DigitValue(s[0])) == s[0];
    } else {
      var p := s[..|s| - 1];
      assert p[0] == s[0];
      assert p[0] != '0';
      CanonicalRoundTrip(p);
      PositiveLeading(s);
      var v := DigitsValue(s);
      assert v / 10 == DigitsValue(p) && v % 10 == DigitValue(s[|s| - 1]);
      assert DigitChar(DigitValue(s[|s| - 1])) == s[|s| - 1];
      assert p + [s[|s| - 1]] == s;
    }
  }

  lemma {:induction false} PositiveLeading(s: string)
    requires Canonical(s) && |s| > 1
    ensures DigitsValue(s) >= 10
    decreases |s|
  {
    var p := s[..|s| - 1];
    if |p| == 1 {
      assert DigitValue(p[0]) >= 1;
      assert DigitsValue(p) == DigitValue(p[|p| - 1]);
    } else {
      assert p[0] == s[0];
      PositiveLeading(p);
    }
  }

  /** The longest prefix of `s` made of digits. */
  function LeadingDigits(s: string): (r: string)
    ensures |r| <= |s| && AllDigits(r) && r == s[..|r|]
    ensures |r| == |s| || !IsDigit(s[|r|])
  {
    if |s| > 0 && IsDigit(s[0]) then
      var rest := LeadingDigits(s[1..]);
      assert s[..|rest| + 1] == [s[0]] + s[1..][..|rest|];
      [s[0]] + rest
    else ""
  }

  lemma LeadingDigitsOfDigits(s: string, rest: string)
    requires AllDigits(s)
    requires rest == "" || !IsDigit(rest[0])
    ensures LeadingDigits(s + rest) == s
    decreases |s|
  {
    if |s| > 0 {
      assert (s + rest)[1..] == s[1..] + rest;
      LeadingDigitsOfDigits(s[1..], rest);
    } else {
      assert s + rest == rest;
    }
  }
}
