/**
 * The pieces of Python's `str` behaviour that the application relies on:
 * `isspace`, `strip`/`lstrip`/`rstrip`, `startswith`, `join`, `split` on one
 * character, `splitlines`, `lower` and `str()` of a natural number.
 */
module Text {

  /** Python's `str.isspace()`: the characters removed by `strip()` and matched by `\s`. */
  const Spaces: set<char> := {
    '\t', '\n', '\U{0B}', '\U{0C}', '\r', '\U{1C}', '\U{1D}', '\U{1E}', '\U{1F}', ' ',
    '\U{85}', '\U{A0}', '\U{1680}', '\U{2000}', '\U{2001}', '\U{2002}', '\U{2003}', '\U{2004}',
    '\U{2005}', '\U{2006}', '\U{2007}', '\U{2008}', '\U{2009}', '\U{200A}', '\U{2028}',
    '\U{2029}', '\U{202F}', '\U{205F}', '\U{3000}'
  }

  predicate IsSpace(c: char) {
    c in Spaces
  }

  /** The line boundaries of Python's `str.splitlines()` ("\r\n" is handled by SplitLines). */
  predicate IsLineBreak(c: char) {
    c == '\n' || c == '\r' || c == '\U{0B}' || c == '\U{0C}' || ('\U{1C}' <= c <= '\U{1E}')
    || c == '\U{85}' || c == '\U{2028}' || c == '\U{2029}'
  }

  /** ASCII decimal digits (Python's `\d` also accepts other Unicode digits). */
  const Digits: set<char> := {'0', '1', '2', '3', '4', '5', '6', '7', '8', '9'}

  predicate IsDigit(c: char) {
    c in Digits
  }

  predicate IsUpper(c: char) {
    'A' <= c <= 'Z'
  }

  predicate StartsWith(s: string, prefix: string) {
    |prefix| <= |s| && s[..|prefix|] == prefix
  }

  /** `s.lstrip(chars)`: drop the longest prefix made of characters in `p`. */
  function TrimLeft(s: string, p: set<char>): string
    decreases |s|
  {
    if s != [] && s[0] in p then TrimLeft(s[1..], p) else s
  }

  /** `s.rstrip(chars)`: drop the longest suffix made of characters in `p`. */
  function TrimRight(s: string, p: set<char>): string
    decreases |s|
  {
    if s != [] && s[|s| - 1] in p then TrimRight(s[..|s| - 1], p) else s
  }

  /** `lstrip` removes exactly a maximal prefix of characters from `p`: the result is a
      suffix of `s`, everything removed is in `p`, and the result does not start in `p`. */
  lemma {:induction false} TrimLeftSpec(s: string, p: set<char>)
    ensures var r := TrimLeft(s, p);
      |r| <= |s| && r == s[|s| - |r|..]
      && (forall i :: 0 <= i < |s| - |r| ==> s[i] in p)
      && (r != [] ==> r[0] !in p)
    decreases |s|
  {
    if s != [] && s[0] in p {
      TrimLeftSpec(s[1..], p);
    }
  }

  /** `rstrip` removes exactly a maximal suffix of characters from `p`. */
  lemma {:induction false} TrimRightSpec(s: string, p: set<char>)
    ensures var r := TrimRight(s, p);
      |r| <= |s| && r == s[..|r|]
      && (forall i :: |r| <= i < |s| ==> s[i] in p)
      && (r != [] ==> r[|r| - 1] !in p)
    decreases |s|
  {
    if s != [] && s[|s| - 1] in p {
      TrimRightSpec(s[..|s| - 1], p);
    }
  }

  /** `s.strip(chars)` */
  function Trim(s: string, p: set<char>): string {
    TrimRight(TrimLeft(s, p), p)
  }

  /** `s.strip()` */
  function Strip(s: string): string {
    Trim(s, Spaces)
  }

  /** `Strip` yields a blank-free core of `s`: the removed ends are whitespace and what is
      left neither starts nor ends with whitespace. */
  lemma StripIsCore(s: string)
    ensures var r := Strip(s);
      exists i, j :: 0 <= i <= j <= |s| && r == s[i..j]
        && (forall k :: 0 <= k < i ==> IsSpace(s[k]))
        && (forall k :: j <= k < |s| ==> IsSpace(s[k]))
        && (r != [] ==> !IsSpace(r[0]) && !IsSpace(r[|r| - 1]))
  {
    var l := TrimLeft(s, Spaces);
    var r := TrimRight(l, Spaces);
    TrimLeftSpec(s, Spaces);
    TrimRightSpec(l, Spaces);
    var i := |s| - |l|;
    var j := i + |r|;
    assert r == s[i..j];
    assert forall k :: j <= k < |s| ==> s[k] == l[k - i];
  }

  /** Sequence concatenation is associative. */
  lemma AppendAssoc<T>(x: seq<T>, y: seq<T>, z: seq<T>)
    ensures x + (y + z) == (x + y) + z
  {
  }

  /** A non-empty sequence is all but its last element, then that element. */
  lemma DropLastSnoc<T>(s: seq<T>)
    requires s != []
    ensures s[..|s| - 1] + [s[|s| - 1]] == s
  {
  }

  /** All but the last element of a sequence of two or more: its head, then all but the
      last element of its tail. */
  lemma DropLastCons<T>(s: seq<T>)
    requires |s| > 1
    ensures s[..|s| - 1] == [s[0]] + s[1..][..|s| - 2]
  {
  }

  /** `sep.join(parts)` */
  function Join(sep: string, parts: seq<string>): string
    decreases |parts|
  {
    if parts == [] then ""
    else if |parts| == 1 then parts[0]
    else parts[0] + sep + Join(sep, parts[1..])
  }

  /** `"".join(parts)` */
  function Concat(parts: seq<string>): string
    decreases |parts|
  {
    if parts == [] then "" else Concat(parts[..|parts| - 1]) + parts[|parts| - 1]
  }

  /** Index of the first `c` in `s`, or `|s|` when there is none. */
  function IndexOf(s: string, c: char): (i: nat)
    ensures i <= |s|
    ensures i < |s| ==> s[i] == c
    ensures forall k :: 0 <= k < i ==> s[k] != c
    decreases |s|
  {
    if s == [] then 0 else if s[0] == c then 0 else 1 + IndexOf(s[1..], c)
  }

  /** `s.split(c)` for a one-character separator: never empty, "" gives [""]. */
  function SplitOn(s: string, c: char): (parts: seq<string>)
    ensures |parts| >= 1
    decreases |s|
  {
    var i := IndexOf(s, c);
    if i == |s| then [s] else [s[..i]] + SplitOn(s[i + 1..], c)
  }

  /** Splitting at one separator occurrence splits the two sides independently. */
  lemma {:induction false} SplitOnAppend(a: string, c: char, b: string)
    requires c !in a
    ensures SplitOn(a + [c] + b, c) == [a] + SplitOn(b, c)
  {
    var s := a + [c] + b;
    assert s[|a|] == c;
    assert forall k :: 0 <= k < |a| ==> s[k] == a[k];
    assert IndexOf(s, c) == |a|;
    assert s[..|a|] == a && s[|a| + 1..] == b;
  }

  /** `sep.split` undoes `sep.join` when no part holds the separator. */
  lemma {:induction false} SplitJoin(parts: seq<string>, c: char)
    requires parts != []
    requires forall k :: 0 <= k < |parts| ==> c !in parts[k]
    ensures SplitOn(Join([c], parts), c) == parts
    decreases |parts|
  {
    if |parts| == 1 {
      assert IndexOf(parts[0], c) == |parts[0]|;
    } else {
      var rest := parts[1..];
      assert Join([c], parts) == parts[0] + [c] + Join([c], rest);
      SplitJoin(rest, c);
      SplitOnAppend(parts[0], c, Join([c], rest));
      assert parts == [parts[0]] + rest;
    }
  }

  /** A joined text holds no character that neither the separator nor any part holds. */
  lemma {:induction false} NotInJoin(sep: string, parts: seq<string>, c: char)
    requires c !in sep
    requires forall k :: 0 <= k < |parts| ==> c !in parts[k]
    ensures c !in Join(sep, parts)
    decreases |parts|
  {
    if |parts| > 1 {
      NotInJoin(sep, parts[1..], c);
    }
  }

  /** The last element of `s.split(c)`: the text after the final `c`, or all of `s`. */
  lemma {:induction false} LastOfSplit(a: string, c: char, b: string)
    requires c !in b
    ensures var parts := SplitOn(a + [c] + b, c); parts[|parts| - 1] == b
    decreases |a|
  {
    var i := IndexOf(a, c);
    if i == |a| {
      SplitOnAppend(a, c, b);
      assert IndexOf(b, c) == |b|;
    } else {
      var p, q := a[..i], a[i + 1..];
      assert a == p + [c] + q;
      Regroup(p, c, q, b);
      SplitOnAppend(p, c, q + [c] + b);
      LastOfSplit(q, c, b);
    }
  }

  lemma Regroup<T>(p: seq<T>, x: T, q: seq<T>, b: seq<T>)
    ensures (p + [x] + q) + [x] + b == p + [x] + (q + [x] + b)
  {
  }

  /** Length of the line that starts `s`: up to the first line boundary. */
  function LineEnd(s: string): (i: nat)
    ensures i <= |s|
    ensures i < |s| ==> IsLineBreak(s[i])
    ensures forall k :: 0 <= k < i ==> !IsLineBreak(s[k])
    decreases |s|
  {
    if s == [] then 0 else if IsLineBreak(s[0]) then 0 else 1 + LineEnd(s[1..])
  }

  /** `s.splitlines()`: no trailing empty line, "\r\n" counts as one boundary. */
  function SplitLines(s: string): (lines: seq<string>)
    decreases |s|
  {
    if s == [] then []
    else
      var i := LineEnd(s);
      if i == |s| then [s] else [s[..i]] + SplitLines(s[i + BreakWidth(s, i)..])
  }

  /** Length of the boundary at `i`: two for "\r\n", one otherwise. */
  function BreakWidth(s: string, i: nat): (w: nat)
    requires i < |s|
    ensures 1 <= w <= |s| - i
  {
    if s[i] == '\r' && i + 1 < |s| && s[i + 1] == '\n' then 2 else 1
  }

  /** Lines each followed by "\n": the text a line-by-line writer produces. */
  function Terminated(lines: seq<string>): string
    decreases |lines|
  {
    if lines == [] then "" else lines[0] + "\n" + Terminated(lines[1..])
  }

  predicate NoLineBreak(s: string) {
    forall j :: 0 <= j < |s| ==> !IsLineBreak(s[j])
  }

  lemma SplitLinesStep(s: string, i: nat)
    requires s != [] && i == LineEnd(s) && i < |s|
    ensures SplitLines(s) == [s[..i]] + SplitLines(s[i + BreakWidth(s, i)..])
  {
    var w := BreakWidth(s, i);
    var rest := s[i + w..];
    assert SplitLines(s) == [s[..i]] + SplitLines(rest);
  }

  /** No line that `splitlines` returns holds a line boundary. */
  lemma {:induction false} SplitLinesNoBreak(s: string)
    ensures forall k :: 0 <= k < |SplitLines(s)| ==> NoLineBreak(SplitLines(s)[k])
    decreases |s|
  {
    if s != [] {
      var i := LineEnd(s);
      assert NoLineBreak(s[..i]) by {
        assert forall j :: 0 <= j < i ==> s[..i][j] == s[j];
      }
      if i == |s| {
        assert s[..i] == s;
      } else {
        SplitLinesNoBreak(s[i + BreakWidth(s, i)..]);
        SplitLinesStep(s, i);
      }
    }
  }

  /** `splitlines` recovers the lines of a newline-terminated text. */
  lemma {:induction false} SplitLinesTerminated(lines: seq<string>)
    requires forall k :: 0 <= k < |lines| ==> NoLineBreak(lines[k])
    ensures SplitLines(Terminated(lines)) == lines
    decreases |lines|
  {
    if lines != [] {
      var s, l, rest := Terminated(lines), lines[0], lines[1..];
      assert SplitLines(s) == [l] + SplitLines(Terminated(rest)) by {
        FirstTerminatedLine(lines);
        SplitLinesStep(s, |l|);
      }
      SplitLinesTerminated(rest);
      assert lines == [l] + rest;
    }
  }

  /** The first line of a newline-terminated text ends at its "\n", which is followed by
      the rest of the text. */
  lemma FirstTerminatedLine(lines: seq<string>)
    requires lines != [] && NoLineBreak(lines[0])
    ensures var s, l := Terminated(lines), lines[0];
      LineEnd(s) == |l| && |l| < |s| && BreakWidth(s, |l|) == 1
      && s[..|l|] == l && s[|l| + 1..] == Terminated(lines[1..])
  {
    var s, l := Terminated(lines), lines[0];
    assert s == l + "\n" + Terminated(lines[1..]);
    assert forall k :: 0 <= k < |l| ==> s[k] == l[k];
    assert s[|l|] == '\n';
    LineEndAt(s, |l|);
  }

  lemma {:induction false} LineEndAt(s: string, i: nat)
    requires i < |s| && IsLineBreak(s[i])
    requires forall k :: 0 <= k < i ==> !IsLineBreak(s[k])
    ensures LineEnd(s) == i
    decreases i
  {
    if i > 0 {
      LineEndAt(s[1..], i - 1);
    }
  }

  /** ASCII `str.lower()` of one character. */
  function LowerChar(c: char): (r: char)
    ensures !IsUpper(r)
    ensures IsUpper(c) ==> r as int == c as int + 32
    ensures !IsUpper(c) ==> r == c
  {
    if IsUpper(c) then (c as int + 32) as char else c
  }

  /** ASCII `str.lower()`: lower-cases letters A-Z, keeps every other character. */
  function Lower(s: string): (r: string)
    ensures |r| == |s|
    ensures forall i :: 0 <= i < |s| ==> r[i] == LowerChar(s[i])
    decreases |s|
  {
    if s == [] then [] else [LowerChar(s[0])] + Lower(s[1..])
  }

  function DigitChar(d: nat): (c: char)
    requires d < 10
    ensures IsDigit(c)
  {
    ('0' as int + d) as char
  }

  function DigitValue(c: char): nat
    requires IsDigit(c)
  {
    c as int - '0' as int
  }

  /** `str(n)` for a natural number: decimal digits, no leading zero. */
  function NatToString(n: nat): (r: string)
    ensures r != []
    ensures forall i :: 0 <= i < |r| ==> IsDigit(r[i])
    ensures |r| > 1 ==> r[0] != '0'
    decreases n
  {
    if n < 10 then [DigitChar(n)] else NatToString(n / 10) + [DigitChar(n % 10)]
  }

  /** `int(s)` for a string of decimal digits. */
  function ParseDigits(s: string): nat
    requires forall i :: 0 <= i < |s| ==> IsDigit(s[i])
    decreases |s|
  {
    if s == [] then 0 else 10 * ParseDigits(s[..|s| - 1]) + DigitValue(s[|s| - 1])
  }

  /** Reading the decimal digits of `n` back gives `n`. */
  lemma {:induction false} ParseNatToString(n: nat)
    ensures ParseDigits(NatToString(n)) == n
    decreases n
  {
    var r := NatToString(n);
    if n >= 10 {
      ParseNatToString(n / 10);
      assert r[..|r| - 1] == NatToString(n / 10);
    }
  }
}
