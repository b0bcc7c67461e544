/**
 * String operations the interpreters are written with: Python's `str.replace`,
 * `str.split`, `str.strip` and `int()` on a digit run, and JavaScript's
 * `String.prototype.trim`, `split`, `replace` (string pattern) and `toLowerCase`.
 */
module Text {
  import opened Wrappers

  // ---------------------------------------------------------------- characters

  predicate IsDigit(c: char) { '0' <= c <= '9' }

  predicate AllDigits(s: string) { forall i :: 0 <= i < |s| ==> IsDigit(s[i]) }

  /** Python's `str.isspace`: what `str.strip()` removes and what `\s` matches in a str pattern. */
  predicate IsPySpace(c: char)
  {
    || ('\t' <= c <= '\r') || ('\U{1c}' <= c <= '\U{1f}') || c == ' '
    || c == '\U{85}' || c == '\U{a0}' || c == '\U{1680}'
    || ('\U{2000}' <= c <= '\U{200a}') || c == '\U{2028}' || c == '\U{2029}'
    || c == '\U{202f}' || c == '\U{205f}' || c == '\U{3000}'
  }

  /** JavaScript's WhiteSpace and LineTerminator code points: what `trim()` removes. */
  predicate IsJsSpace(c: char)
  {
    || ('\t' <= c <= '\r') || c == ' ' || c == '\U{a0}' || c == '\U{1680}'
    || ('\U{2000}' <= c <= '\U{200a}') || c == '\U{2028}' || c == '\U{2029}'
    || c == '\U{202f}' || c == '\U{205f}' || c == '\U{3000}' || c == '\U{feff}'
  }

  // ---------------------------------------------------------------- decimal numbers

  /** The value of a run of decimal digits, as Python's `int()` reads it (leading zeros allowed). */
  function DigitsValue(s: string): nat
    requires AllDigits(s)
  {
    if s == [] then 0 else 10 * DigitsValue(s[..|s| - 1]) + (s[|s| - 1] as int - '0' as int)
  }

  function DigitChar(d: nat): (c: char)
    requires d < 10
    ensures IsDigit(c) && c as int - '0' as int == d
  {
    ('0' as int + d) as char
  }

  /** Decimal text of n without leading zeros, as Python's f-string and `str()` print it. */
  function NatToString(n: nat): string
  {
    if n < 10 then [DigitChar(n)] else NatToString(n / 10) + [DigitChar(n % 10)]
  }

  /** Printing a number and reading it back gives the number. */
  lemma {:induction false} NatToStringRoundTrip(n: nat)
    ensures AllDigits(NatToString(n)) && |NatToString(n)| > 0
    ensures DigitsValue(NatToString(n)) == n
  {
    if n >= 10 {
      NatToStringRoundTrip(n / 10);
      var s := NatToString(n);
      assert s[..|s| - 1] == NatToString(n / 10);
    }
  }

  // ---------------------------------------------------------------- substrings

  predicate StartsWith(s: string, p: string) { |p| <= |s| && s[..|p|] == p }

  predicate OccursAt(s: string, p: string, i: nat) { i + |p| <= |s| && s[i..i + |p|] == p }

  /** First index at which p occurs in s (JavaScript `indexOf`, Python `find`). */
  function IndexOf(s: string, p: string): (r: Option<nat>)
    ensures r.Some? ==> OccursAt(s, p, r.value)
    ensures r.Some? ==> forall j :: 0 <= j < r.value ==> !OccursAt(s, p, j)
    ensures r.None? ==> forall j :: 0 <= j <= |s| ==> !OccursAt(s, p, j)
    decreases |s|
  {
    if StartsWith(s, p) then Some(0)
    else if s == [] then None
    else
      OccursShift(s, p);
      match IndexOf(s[1..], p)
      case None => None
      case Some(k) => Some(k + 1)
  }

  /** An occurrence past the first character is an occurrence in the tail. */
  lemma OccursShift(s: string, p: string)
    requires s != []
    ensures forall j: nat :: 1 <= j ==> (OccursAt(s, p, j) <==> OccursAt(s[1..], p, j - 1))
  {
    forall j: nat | 1 <= j && j + |p| <= |s|
      ensures OccursAt(s, p, j) == OccursAt(s[1..], p, j - 1)
    {
      TailSlice(s, j - 1, j - 1 + |p|);
    }
  }

  lemma TailSlice(s: string, a: nat, b: nat)
    requires a <= b && b + 1 <= |s|
    ensures s[1..][a..b] == s[a + 1..b + 1]
  {
    var x, y := s[1..][a..b], s[a + 1..b + 1];
    forall m | 0 <= m < b - a ensures x[m] == y[m] {
    }
  }

  /** Python `p in s`, JavaScript `s.includes(p)`. */
  predicate Contains(s: string, p: string) { IndexOf(s, p).Some? }

  lemma ContainsAt(s: string, p: string, i: nat)
    requires OccursAt(s, p, i)
    ensures Contains(s, p)
  {
  }

  lemma NotContains(s: string, p: string, i: nat)
    requires !Contains(s, p) && i <= |s|
    ensures !OccursAt(s, p, i)
  {
  }

  /** A string with p somewhere inside still contains p once text is added at either end. */
  lemma ContainsGrows(a: string, s: string, b: string, p: string)
    requires Contains(s, p)
    ensures Contains(a + s + b, p)
  {
    var i := IndexOf(s, p).value;
    assert (a + s + b)[|a| + i..|a| + i + |p|] == s[i..i + |p|];
    ContainsAt(a + s + b, p, |a| + i);
  }

  /** A string in which the first character of p never appears does not contain p. */
  lemma NotContainsFirst(s: string, p: string)
    requires |p| > 0 && forall i :: 0 <= i < |s| ==> s[i] != p[0]
    ensures !Contains(s, p)
  {
    forall i | 0 <= i <= |s| ensures !OccursAt(s, p, i) {
      if i + |p| <= |s| {
        assert s[i..i + |p|][0] == s[i];
      }
    }
  }

  /** A character found in a concatenation is found in one of its parts. */
  lemma ContainsCharConcat(a: string, b: string, c: char)
    requires !Contains(a, [c]) && !Contains(b, [c])
    ensures !Contains(a + b, [c])
  {
    if Contains(a + b, [c]) {
      var i := IndexOf(a + b, [c]).value;
      if i < |a| {
        assert a[i..i + 1] == (a + b)[i..i + 1];
        ContainsAt(a, [c], i);
      } else {
        assert b[i - |a|..i - |a| + 1] == (a + b)[i..i + 1];
        ContainsAt(b, [c], i - |a|);
      }
    }
  }

  // ---------------------------------------------------------------- replacing

  /** Python `s.replace(p, r)`: every occurrence, scanning left to right without overlap. */
  function ReplaceAll(s: string, p: string, r: string): string
    requires |p| > 0
    decreases |s|
  {
    if StartsWith(s, p) then r + ReplaceAll(s[|p|..], p, r)
    else if s == [] then []
    else [s[0]] + ReplaceAll(s[1..], p, r)
  }

  /** Deleting every occurrence of a one-character string leaves none of it. */
  lemma {:induction false} ReplaceAllDeletes(s: string, c: char)
    ensures forall i :: 0 <= i < |ReplaceAll(s, [c], "")| ==> ReplaceAll(s, [c], "")[i] != c
    decreases |s|
  {
    if s != [] {
      ReplaceAllDeletes(s[1..], c);
    }
  }

  /** A string without p is left as it is. */
  lemma {:induction false} ReplaceAllAbsent(s: string, p: string, r: string)
    requires |p| > 0 && !Contains(s, p)
    ensures ReplaceAll(s, p, r) == s
    decreases |s|
  {
    if s != [] {
      NotContains(s, p, 0);
      ReplaceAllAbsent(s[1..], p, r);
    }
  }

  /** JavaScript `s.replace(p, r)` with a string pattern: the first occurrence only. */
  function ReplaceFirst(s: string, p: string, r: string): string
  {
    match IndexOf(s, p)
    case None => s
    case Some(i) => s[..i] + r + s[i + |p|..]
  }

  /** The first occurrence of a one-character pattern after a free prefix is the one replaced; the rest is kept. */
  lemma ReplaceFirstAt(a: string, c: char, b: string, r: string)
    requires !Contains(a, [c])
    ensures ReplaceFirst(a + [c] + b, [c], r) == a + r + b
  {
    var s := a + [c] + b;
    assert OccursAt(s, [c], |a|);
    var i := IndexOf(s, [c]).value;
    if i < |a| {
      assert a[i..i + 1] == s[i..i + 1];
      ContainsAt(a, [c], i);
    }
    assert s[..i] == a && s[i + 1..] == b;
  }

  // ---------------------------------------------------------------- splitting

  /** Python `s.split(sep)` and JavaScript `s.split(sep)` for a non-empty separator. */
  function Split(s: string, sep: string): (parts: seq<string>)
    requires |sep| > 0
    ensures |parts| >= 1
    decreases |s|
  {
    match IndexOf(s, sep)
    case None => [s]
    case Some(i) => [s[..i]] + Split(s[i + |sep|..], sep)
  }

  function Join(parts: seq<string>, sep: string): string
    requires |parts| >= 1
  {
    if |parts| == 1 then parts[0] else parts[0] + sep + Join(parts[1..], sep)
  }

  /** Joining the pieces of a split with its separator gives back the string. */
  lemma {:induction false} JoinSplit(s: string, sep: string)
    requires |sep| > 0
    ensures Join(Split(s, sep), sep) == s
    decreases |s|
  {
    match IndexOf(s, sep)
    case None =>
    case Some(i) =>
      var tail := s[i + |sep|..];
      var parts, rest := Split(s, sep), Split(tail, sep);
      assert parts == [s[..i]] + rest;
      assert parts[1..] == rest;
      assert Join(parts, sep) == s[..i] + sep + Join(rest, sep);
      JoinSplit(tail, sep);
      assert s[i..i + |sep|] == sep;
      assert s == s[..i] + s[i..i + |sep|] + tail;
  }

  /** No piece of a split contains the separator. */
  lemma {:induction false} SplitPiecesFree(s: string, sep: string, k: nat)
    requires |sep| > 0 && k < |Split(s, sep)|
    ensures !Contains(Split(s, sep)[k], sep)
    decreases |s|
  {
    match IndexOf(s, sep)
    case None =>
    case Some(i) =>
      if k == 0 {
        if Contains(s[..i], sep) {
          var j := IndexOf(s[..i], sep).value;
          assert OccursAt(s, sep, j) by { assert s[..i][j..j + |sep|] == s[j..j + |sep|]; }
        }
      } else {
        SplitPiecesFree(s[i + |sep|..], sep, k - 1);
      }
  }

  /** The first piece is what precedes the first separator: a one-character separator after a free prefix. */
  lemma SplitFirstPiece(a: string, c: char, b: string)
    requires !Contains(a, [c])
    ensures Split(a + [c] + b, [c])[0] == a
  {
    var s := a + [c] + b;
    assert OccursAt(s, [c], |a|);
    ContainsAt(s, [c], |a|);
    var i := IndexOf(s, [c]).value;
    if i < |a| {
      assert a[i..i + 1] == s[i..i + 1];
      ContainsAt(a, [c], i);
    }
  }

  /** The first piece is a prefix of the string, followed by the separator when there are more pieces. */
  lemma SplitHead(s: string, sep: string)
    requires |sep| > 0
    ensures StartsWith(s, Split(s, sep)[0])
    ensures |Split(s, sep)| == 1 ==> Split(s, sep)[0] == s
    ensures |Split(s, sep)| > 1 ==> StartsWith(s, Split(s, sep)[0] + sep)
  {
    match IndexOf(s, sep)
    case None =>
    case Some(i) =>
      assert s[..i + |sep|] == s[..i] + sep;
  }

  /** A string free of a one-character separator is its own single piece. */
  lemma SplitAbsent(s: string, c: char)
    requires !Contains(s, [c])
    ensures Split(s, [c]) == [s]
  {
  }

  // ---------------------------------------------------------------- trimming

  function TrimStart(s: string, space: char -> bool): string
  {
    if s != [] && space(s[0]) then TrimStart(s[1..], space) else s
  }

  function TrimEnd(s: string, space: char -> bool): string
  {
    if s != [] && space(s[|s| - 1]) then TrimEnd(s[..|s| - 1], space) else s
  }

  function Trim(s: string, space: char -> bool): string
  {
    TrimEnd(TrimStart(s, space), space)
  }

  /** Python `s.strip()`. */
  function PyStrip(s: string): string { Trim(s, IsPySpace) }

  /** JavaScript `s.trim()`. */
  function JsTrim(s: string): string { Trim(s, IsJsSpace) }

  /**
   * Trimming keeps one contiguous slice of the string: everything dropped before
   * and after it is space, and the slice neither starts nor ends with space.
   */
  lemma TrimSlice(s: string, space: char -> bool) returns (i: nat, j: nat)
    ensures i <= j <= |s| && Trim(s, space) == s[i..j]
    ensures forall k :: 0 <= k < i ==> space(s[k])
    ensures forall k :: j <= k < |s| ==> space(s[k])
    ensures i < j ==> !space(s[i]) && !space(s[j - 1])
  {
    i := TrimStartSlice(s, space);
    var t := s[i..];
    var e := TrimEndSlice(t, space);
    j := i + e;
    assert t[..e] == s[i..j];
    forall k | j <= k < |s| ensures space(s[k]) {
      assert s[k] == t[k - i];
    }
  }

  lemma {:induction false} TrimStartSlice(s: string, space: char -> bool) returns (i: nat)
    ensures i <= |s| && TrimStart(s, space) == s[i..]
    ensures forall k :: 0 <= k < i ==> space(s[k])
    ensures i < |s| ==> !space(s[i])
    decreases |s|
  {
    if s != [] && space(s[0]) {
      var i' := TrimStartSlice(s[1..], space);
      i := i' + 1;
      assert s[1..][i'..] == s[i..];
      forall k | 0 < k < i ensures space(s[k]) { assert s[k] == s[1..][k - 1]; }
    } else {
      i := 0;
    }
  }

  lemma {:induction false} TrimEndSlice(s: string, space: char -> bool) returns (j: nat)
    ensures j <= |s| && TrimEnd(s, space) == s[..j]
    ensures forall k :: j <= k < |s| ==> space(s[k])
    ensures 0 < j ==> !space(s[j - 1])
    decreases |s|
  {
    if s != [] && space(s[|s| - 1]) {
      j := TrimEndSlice(s[..|s| - 1], space);
      assert s[..|s| - 1][..j] == s[..j];
    } else {
      j := |s|;
    }
  }

  // ---------------------------------------------------------------- case

  function AsciiLowerChar(c: char): char
  {
    if 'A' <= c <= 'Z' then (c as int - 'A' as int + 'a' as int) as char else c
  }

  /** JavaScript `toLowerCase`, for the ASCII letters. */
  function AsciiLower(s: string): (t: string)
    ensures |t| == |s|
    ensures forall i :: 0 <= i < |s| ==> t[i] == AsciiLowerChar(s[i])
  {
    seq(|s|, i requires 0 <= i < |s| => AsciiLowerChar(s[i]))
  }
}
