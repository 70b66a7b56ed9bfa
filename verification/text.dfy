/**
 Python `str`/`bytes` operations the extractor relies on: case mapping, `strip`, substring
 search (`in`, `find`), `split`/`join` and the decimal rendering of integers by `str(int)`.
 Case mapping covers the ASCII letters only.
 */
module Text {

  /** One byte of a Python `bytes` object. */
  type byte = b: int | 0 <= b < 256

  // ---------------------------------------------------------------- characters

  /** Python's `str.isspace`: the characters `str.strip()` removes. */
  predicate IsSpace(c: char) {
    || c == ' ' || ('\t' <= c <= '\r') || ('\U{1c}' <= c <= '\U{1f}')
    || c == '\U{85}' || c == '\U{a0}' || c == '\U{1680}' || ('\U{2000}' <= c <= '\U{200a}')
    || c == '\U{2028}' || c == '\U{2029}' || c == '\U{202f}' || c == '\U{205f}' || c == '\U{3000}'
  }

  function LowerChar(c: char): char {
    if 'A' <= c <= 'Z' then (c as int + 32) as char else c
  }

  function UpperChar(c: char): char {
    if 'a' <= c <= 'z' then (c as int - 32) as char else c
  }

  /** `s.lower()` on ASCII letters. */
  function Lower(s: string): (r: string)
    ensures |r| == |s|
    ensures forall i :: 0 <= i < |s| ==> r[i] == LowerChar(s[i])
  {
    seq(|s|, i requires 0 <= i < |s| => LowerChar(s[i]))
  }

  /** `s.upper()` on ASCII letters. */
  function Upper(s: string): (r: string)
    ensures |r| == |s|
    ensures forall i :: 0 <= i < |s| ==> r[i] == UpperChar(s[i])
  {
    seq(|s|, i requires 0 <= i < |s| => UpperChar(s[i]))
  }

  /** Lower-casing neither adds nor removes a character that is not a letter. */
  lemma LowerKeepsNonLetter(s: string, c: char)
    requires !('A' <= c <= 'Z') && !('a' <= c <= 'z')
    ensures c in Lower(s) <==> c in s
  {
    if c in s {
      var i :| 0 <= i < |s| && s[i] == c;
      assert Lower(s)[i] == c;
    }
    if c in Lower(s) {
      var i :| 0 <= i < |s| && Lower(s)[i] == c;
      assert s[i] == c;
    }
  }

  // ---------------------------------------------------------------- searching

  /** `pat` occurs in `s` starting at index `i`. */
  predicate MatchAt<T(==)>(s: seq<T>, pat: seq<T>, i: int) {
    0 <= i && i + |pat| <= |s| && s[i..i + |pat|] == pat
  }

  /** Python's `pat in s` for strings and byte strings. */
  predicate Contains<T(==)>(s: seq<T>, pat: seq<T>) {
    exists i | 0 <= i <= |s| :: MatchAt(s, pat, i)
  }

  /** Case-insensitive marker test `marker in key.lower()`, for a lower-case marker. */
  predicate Mentions(key: string, marker: string) {
    Contains(Lower(key), marker)
  }

  /** Python's `s.find(pat, from)`: the least index at or after `from` where `pat` occurs, else -1. */
  function FindFrom<T(==)>(s: seq<T>, pat: seq<T>, from: nat): (r: int)
    ensures r == -1 || (from <= r && MatchAt(s, pat, r))
    ensures r == -1 <==> forall j :: from <= j ==> !MatchAt(s, pat, j)
    ensures r >= 0 ==> forall j :: from <= j < r ==> !MatchAt(s, pat, j)
    decreases |s| - from
  {
    if from + |pat| > |s| then -1
    else if s[from..from + |pat|] == pat then from
    else FindFrom(s, pat, from + 1)
  }

  /** `s.find(pat)` reports an occurrence exactly when `pat in s`. */
  lemma FindAgreesWithContains<T>(s: seq<T>, pat: seq<T>)
    ensures FindFrom(s, pat, 0) >= 0 <==> Contains(s, pat)
  {
    var r := FindFrom(s, pat, 0);
    if r >= 0 {
      assert MatchAt(s, pat, r);
    }
  }

  // ---------------------------------------------------------------- strip

  /**
   `s.strip()`: `s` without its leading and trailing white space. The result is empty exactly
   when `s` is all white space, and it only holds characters of `s`.
   */
  function Strip(s: string): (r: string)
    ensures |r| <= |s|
    ensures r == [] || (!IsSpace(r[0]) && !IsSpace(r[|r| - 1]))
    ensures r == [] <==> forall i :: 0 <= i < |s| ==> IsSpace(s[i])
    ensures forall c :: c in r ==> c in s
  {
    if |s| > 0 && IsSpace(s[0]) then
      var r := Strip(s[1..]);
      assert forall i :: 1 <= i < |s| ==> s[i] == s[1..][i - 1];
      r
    else if |s| > 0 && IsSpace(s[|s| - 1]) then
      var r := Strip(s[..|s| - 1]);
      assert forall i :: 0 <= i < |s| - 1 ==> s[i] == s[..|s| - 1][i];
      r
    else s
  }

  /** Stripping twice is stripping once. */
  lemma StripIdempotent(s: string)
    ensures Strip(Strip(s)) == Strip(s)
  {
  }

  // ---------------------------------------------------------------- split and join

  /** `sep.join(parts)`. */
  function Join(sep: string, parts: seq<string>): string
    decreases |parts|
  {
    if |parts| == 0 then ""
    else if |parts| == 1 then parts[0]
    else parts[0] + sep + Join(sep, parts[1..])
  }

  /** The number of occurrences of `c` in `s`. */
  function Count(s: string, c: char): nat {
    if |s| == 0 then 0 else (if s[0] == c then 1 else 0) + Count(s[1..], c)
  }

  /** `s.split(sep)` for a one-character separator: every piece, empty ones included. */
  function Split(s: string, sep: char): (parts: seq<string>)
    ensures |parts| == Count(s, sep) + 1
    ensures forall i :: 0 <= i < |parts| ==> sep !in parts[i]
  {
    if |s| == 0 then [""]
    else
      var rest := Split(s[1..], sep);
      if s[0] == sep then [""] + rest else [[s[0]] + rest[0]] + rest[1..]
  }

  /** Joining the pieces of a split with the separator gives back the text. */
  lemma {:induction false} JoinSplit(s: string, sep: char)
    ensures Join([sep], Split(s, sep)) == s
  {
    if |s| > 0 {
      var rest := Split(s[1..], sep);
      JoinSplit(s[1..], sep);
      if s[0] == sep {
        assert Split(s, sep) == [""] + rest;
        assert s == [sep] + s[1..];
      } else {
        var parts := Split(s, sep);
        assert parts == [[s[0]] + rest[0]] + rest[1..];
        if |rest| == 1 {
          assert Join([sep], parts) == [s[0]] + rest[0];
        } else {
          assert parts[1..] == rest[1..];
          assert Join([sep], parts) == [s[0]] + rest[0] + [sep] + Join([sep], rest[1..]);
          assert Join([sep], rest) == rest[0] + [sep] + Join([sep], rest[1..]);
        }
        assert s == [s[0]] + s[1..];
      }
    }
  }

  /** A text without the separator splits into itself alone. */
  lemma {:induction false} SplitWithoutSeparator(s: string, sep: char)
    requires sep !in s
    ensures Split(s, sep) == [s]
  {
    if |s| > 0 {
      SplitWithoutSeparator(s[1..], sep);
      assert [s[0]] + s[1..] == s;
    }
  }

  /** Splitting `head + sep + tail` separates `head` from the pieces of `tail`. */
  lemma {:induction false} SplitAtSeparator(head: string, sep: char, tail: string)
    requires sep !in head
    ensures Split(head + [sep] + tail, sep) == [head] + Split(tail, sep)
    decreases |head|
  {
    var s := head + [sep] + tail;
    if |head| == 0 {
      assert s[1..] == tail;
    } else {
      assert s[1..] == head[1..] + [sep] + tail;
      SplitAtSeparator(head[1..], sep, tail);
      assert [head[0]] + head[1..] == head;
    }
  }

  /** Splitting a join recovers the pieces, when no piece holds the separator. */
  lemma {:induction false} SplitJoin(parts: seq<string>, sep: char)
    requires |parts| >= 1
    requires forall i :: 0 <= i < |parts| ==> sep !in parts[i]
    ensures Split(Join([sep], parts), sep) == parts
    decreases |parts|
  {
    if |parts| == 1 {
      SplitWithoutSeparator(parts[0], sep);
    } else {
      SplitJoin(parts[1..], sep);
      assert Join([sep], parts) == parts[0] + [sep] + Join([sep], parts[1..]);
      SplitAtSeparator(parts[0], sep, Join([sep], parts[1..]));
      assert [parts[0]] + parts[1..] == parts;
    }
  }

  // ---------------------------------------------------------------- numbers

  predicate IsDigit(c: char) {
    '0' <= c <= '9'
  }

  function DigitChar(d: nat): (c: char)
    requires d < 10
    ensures IsDigit(c) && c as int - '0' as int == d
  {
    ('0' as int + d) as char
  }

  /** `str(n)` for a natural number: its decimal digits, most significant first. */
  function NatToString(n: nat): (r: string)
    ensures |r| >= 1
    ensures forall i :: 0 <= i < |r| ==> IsDigit(r[i])
  {
    if n < 10 then [DigitChar(n)] else NatToString(n / 10) + [DigitChar(n % 10)]
  }

  /** The number a string of decimal digits denotes (Python's `int(s)` on such strings). */
  function DigitsValue(s: string): nat
    requires forall i :: 0 <= i < |s| ==> IsDigit(s[i])
  {
    if |s| == 0 then 0
    else
      assert IsDigit(s[|s| - 1]);
      10 * DigitsValue(s[..|s| - 1]) + (s[|s| - 1] as int - '0' as int)
  }

  /** Reading back the decimal text of `n` gives `n`. */
  lemma {:induction false} NatToStringRoundTrip(n: nat)
    ensures DigitsValue(NatToString(n)) == n
  {
    if n >= 10 {
      var r := NatToString(n);
      NatToStringRoundTrip(n / 10);
      assert r[..|r| - 1] == NatToString(n / 10);
    }
  }

  /** Distinct numbers have distinct decimal texts. */
  lemma NatToStringInjective(m: nat, n: nat)
    requires NatToString(m) == NatToString(n)
    ensures m == n
  {
    NatToStringRoundTrip(m);
    NatToStringRoundTrip(n);
  }

  /** `str(i)` for a Python integer. */
  function IntToString(i: int): (r: string)
    ensures |r| >= 1
    ensures i >= 0 ==> r == NatToString(i)
    ensures i < 0 ==> r[0] == '-' && r[1..] == NatToString(-i)
  {
    if i < 0 then "-" + NatToString(-i) else NatToString(i)
  }

  // ---------------------------------------------------------------- bytes

  /** The bytes of an ASCII text literal, such as `b'<x:xmpmeta'`. */
  function AsciiBytes(s: string): (b: seq<byte>)
    requires forall i :: 0 <= i < |s| ==> s[i] as int < 128
    ensures |b| == |s|
    ensures forall i :: 0 <= i < |s| ==> b[i] == s[i] as int
  {
    seq(|s|, i requires 0 <= i < |s| => s[i] as int)
  }

  /** The text of ASCII bytes (what a UTF-8 decoder makes of them). */
  function AsciiText(b: seq<byte>): (s: string)
    requires forall i :: 0 <= i < |b| ==> b[i] < 128
    ensures |s| == |b|
    ensures forall i :: 0 <= i < |b| ==> s[i] as int == b[i]
  {
    seq(|b|, i requires 0 <= i < |b| => b[i] as char)
  }
}
