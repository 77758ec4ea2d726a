/**
 * Python's `join`, `strip` and `readlines` as the migration uses them, on
 * strings as sequences of characters; `split` (with `find`) to read a joined
 * list back, and `lower` for the intended reading of a boolean setting.
 */
module Strings {
  /** `sep.join(xs)` for a one-character separator. */
  function Join(xs: seq<string>, sep: char): string
  {
    if xs == [] then ""
    else if |xs| == 1 then xs[0]
    else xs[0] + [sep] + Join(xs[1..], sep)
  }

  /** Joining strings that lack `c` with a separator other than `c` gives a string that lacks `c`. */
  lemma {:induction false} JoinLacks(xs: seq<string>, sep: char, c: char)
    requires c != sep
    requires forall k :: 0 <= k < |xs| ==> c !in xs[k]
    ensures c !in Join(xs, sep)
    decreases |xs|
  {
    if |xs| > 1 {
      assert forall k :: 0 <= k < |xs[1..]| ==> xs[1..][k] == xs[k + 1];
      JoinLacks(xs[1..], sep, c);
      assert Join(xs, sep) == xs[0] + [sep] + Join(xs[1..], sep);
    }
  }

  /** Index of the first `c` in `s`, or `|s|` when there is none. */
  function IndexOf(s: string, c: char): (i: nat)
    ensures i <= |s|
    ensures i < |s| ==> s[i] == c
    ensures forall j :: 0 <= j < i ==> s[j] != c
  {
    if s == [] then 0
    else if s[0] == c then 0
    else 1 + IndexOf(s[1..], c)
  }

  /** `s.split(sep)`: the pieces between separators; a string without one is a single piece. */
  function Split(s: string, sep: char): (r: seq<string>)
    ensures |r| > 0
    ensures forall k :: 0 <= k < |r| ==> sep !in r[k]
    decreases |s|
  {
    var i := IndexOf(s, sep);
    if i == |s| then [s] else [s[..i]] + Split(s[i + 1..], sep)
  }

  /** The first `c` in `a + [c] + b` is the one after `a` when `a` has none. */
  lemma IndexOfAfter(a: string, c: char, b: string)
    requires c !in a
    ensures IndexOf(a + [c] + b, c) == |a|
  {
    var s := a + [c] + b;
    assert forall j :: 0 <= j < |a| ==> s[j] == a[j] && a[j] != c;
    assert s[|a|] == c;
  }

  /** Splitting a join of pieces without separators gives the pieces back. */
  lemma {:induction false} SplitJoin(xs: seq<string>, sep: char)
    requires |xs| > 0
    requires forall k :: 0 <= k < |xs| ==> sep !in xs[k]
    ensures Split(Join(xs, sep), sep) == xs
    decreases |xs|
  {
    if |xs| == 1 {
      assert forall j :: 0 <= j < |xs[0]| ==> xs[0][j] != sep;
    } else {
      var s := Join(xs, sep);
      var rest := Join(xs[1..], sep);
      assert s == xs[0] + [sep] + rest;
      IndexOfAfter(xs[0], sep, rest);
      assert s[..|xs[0]|] == xs[0];
      assert s[|xs[0]| + 1..] == rest;
      SplitJoin(xs[1..], sep);
      assert [xs[0]] + xs[1..] == xs;
    }
  }

  /** ASCII lower case. */
  function Lower(s: string): (r: string)
    ensures |r| == |s|
  {
    if s == [] then []
    else [if 'A' <= s[0] <= 'Z' then (s[0] as int + 32) as char else s[0]] + Lower(s[1..])
  }

  /** The characters `str.strip()` removes: space, and tab, newline, vertical tab, form feed, carriage return (codes 9 to 13). */
  predicate IsSpace(c: char)
  {
    c == ' ' || '\t' <= c <= '\r'
  }

  /** The number of whitespace characters `s` starts with. */
  function Leading(s: string): (n: nat)
    ensures n <= |s|
    ensures forall j :: 0 <= j < n ==> IsSpace(s[j])
    ensures n < |s| ==> !IsSpace(s[n])
    decreases |s|
  {
    if s != [] && IsSpace(s[0]) then
      assert forall j :: 0 <= j < |s| - 1 ==> s[1..][j] == s[j + 1];
      1 + Leading(s[1..])
    else 0
  }

  /** The number of whitespace characters `s` ends with. */
  function Trailing(s: string): (n: nat)
    ensures n <= |s|
    ensures forall j :: |s| - n <= j < |s| ==> IsSpace(s[j])
    ensures n < |s| ==> !IsSpace(s[|s| - n - 1])
    decreases |s|
  {
    if s != [] && IsSpace(s[|s| - 1]) then
      assert forall j :: 0 <= j < |s| - 1 ==> s[..|s| - 1][j] == s[j];
      1 + Trailing(s[..|s| - 1])
    else 0
  }

  /**
   * `str.strip()`: `s` without its leading and trailing whitespace, that is,
   * the part of `s` after its leading whitespace and before its trailing
   * whitespace, which neither starts nor ends with whitespace.
   */
  function Strip(s: string): (r: string)
    ensures var i := Leading(s);
      i + |r| <= |s| &&
      (forall j :: 0 <= j < |r| ==> r[j] == s[i + j]) &&
      (forall j :: i + |r| <= j < |s| ==> IsSpace(s[j]))
    ensures r != [] ==> !IsSpace(r[0]) && !IsSpace(r[|r| - 1])
  {
    var i := Leading(s);
    var rest := s[i..];
    var r := rest[..|rest| - Trailing(rest)];
    assert forall j :: i + |r| <= j < |s| ==> s[j] == rest[j - i];
    r
  }

  /** Every character of `t` is whitespace. */
  predicate AllSpace(t: string)
  {
    forall j :: 0 <= j < |t| ==> IsSpace(t[j])
  }

  /** A string strips to nothing exactly when it is all whitespace. */
  lemma StripEmpty(s: string)
    ensures Strip(s) == [] <==> AllSpace(s)
  {
  }

  /** `readlines()`: the text cut after every newline; a last line without one is kept. */
  function ReadLines(text: string): (lines: seq<string>)
    ensures lines == [] <==> text == []
    ensures forall k :: 0 <= k < |lines| ==> lines[k] != []
    ensures forall k, j :: 0 <= k < |lines| && 0 <= j < |lines[k]| - 1 ==> lines[k][j] != '\n'
    ensures forall k :: 0 <= k < |lines| - 1 ==> lines[k][|lines[k]| - 1] == '\n'
    decreases |text|
  {
    if text == [] then []
    else
      var i := IndexOf(text, '\n');
      if i == |text| then [text] else [text[..i + 1]] + ReadLines(text[i + 1..])
  }

  /** The lines of a text, put back together. */
  function Concat(lines: seq<string>): string
  {
    if lines == [] then "" else lines[0] + Concat(lines[1..])
  }

  /** Reading lines loses nothing: they concatenate back to the text. */
  lemma {:induction false} ReadLinesConcat(text: string)
    ensures Concat(ReadLines(text)) == text
    decreases |text|
  {
    if text != [] {
      var i := IndexOf(text, '\n');
      if i < |text| {
        ReadLinesConcat(text[i + 1..]);
        assert text == text[..i + 1] + text[i + 1..];
      }
    }
  }

  /** A line as `readlines()` gives it has no newline left once stripped. */
  lemma StripLineNoNewline(line: string)
    requires forall j :: 0 <= j < |line| - 1 ==> line[j] != '\n'
    ensures '\n' !in Strip(line)
  {
    var r := Strip(line);
    var i := Leading(line);
    forall p | 0 <= p < |r|
      ensures r[p] != '\n'
    {
      if p < |r| - 1 {
        assert r[p] == line[i + p];
      }
    }
  }
}
