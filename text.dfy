/**
 * The parts of Python's `str` that the assembler relies on: whitespace as `str.isspace`
 * defines it, `strip()`, `split()` with no argument, `split(c)` on one character,
 * `replace` of one character, and `startswith`/`endswith` on one character.
 */
module Text {

  /** The characters above ASCII for which Python's `str.isspace()` holds. */
  const WideWhitespace: set<char> := {
    '\U{85}', '\U{A0}', '\U{1680}',
    '\U{2000}', '\U{2001}', '\U{2002}', '\U{2003}', '\U{2004}', '\U{2005}',
    '\U{2006}', '\U{2007}', '\U{2008}', '\U{2009}', '\U{200A}',
    '\U{2028}', '\U{2029}', '\U{202F}', '\U{205F}', '\U{3000}'
  }

  /**
   * Python's `str.isspace()`, the whitespace `strip()` and `split()` remove: tab, line feed,
   * vertical tab, form feed and carriage return, the separators U+1C..U+1F, space, and
   * the wide whitespace characters.
   */
  predicate IsSpace(c: char) {
    ('\t' <= c <= '\r') || ('\U{1C}' <= c <= ' ') || (c > '\U{7F}' && c in WideWhitespace)
  }

  predicate AllSpace(s: string) {
    forall i :: 0 <= i < |s| ==> IsSpace(s[i])
  }

  predicate NoSpace(s: string) {
    forall i :: 0 <= i < |s| ==> !IsSpace(s[i])
  }

  /** What `split()` yields: a non-empty run of non-whitespace characters. */
  predicate IsWord(w: string) {
    w != [] && NoSpace(w)
  }

  /** The number of whitespace characters at the start of `s`. */
  function LeadingSpaces(s: string): (n: nat)
    ensures n <= |s| && AllSpace(s[..n])
    ensures n < |s| ==> !IsSpace(s[n])
  {
    if |s| > 0 && IsSpace(s[0]) then
      var m := LeadingSpaces(s[1..]);
      assert forall i :: 1 <= i < 1 + m ==> s[i] == s[1..][..m][i - 1];
      1 + m
    else
      0
  }

  /** The length `s` keeps once its trailing whitespace is removed. */
  function TrimmedLength(s: string): (n: nat)
    ensures n <= |s| && AllSpace(s[n..])
    ensures n > 0 ==> !IsSpace(s[n - 1])
  {
    if |s| > 0 && IsSpace(s[|s| - 1]) then
      var n := TrimmedLength(s[..|s| - 1]);
      assert forall i :: n <= i < |s| - 1 ==> s[i] == s[..|s| - 1][n..][i - n];
      n
    else
      |s|
  }

  /**
   * `s.strip()`: `s` without its leading and trailing whitespace, a slice of `s` that is
   * empty exactly when `s` is all whitespace and otherwise starts and ends with non-whitespace.
   */
  function Strip(s: string): (r: string)
    ensures |r| <= |s|
    ensures r == [] <==> AllSpace(s)
    ensures r != [] ==> !IsSpace(r[0]) && !IsSpace(r[|r| - 1])
  {
    var i := LeadingSpaces(s);
    var t := s[i..];
    var n := TrimmedLength(t);
    assert t[..n] == s[i..i + n];
    assert i < |s| ==> t[0..][0] == s[i];
    assert i == |s| ==> s[..i] == s;
    t[..n]
  }

  /** The length of the run of non-whitespace characters at the start of `s`. */
  function WordLength(s: string): (n: nat)
    ensures n <= |s| && NoSpace(s[..n])
    ensures n < |s| ==> IsSpace(s[n])
  {
    if |s| > 0 && !IsSpace(s[0]) then
      var m := WordLength(s[1..]);
      assert forall i :: 1 <= i < 1 + m ==> s[i] == s[1..][..m][i - 1];
      1 + m
    else
      0
  }

  /** `s.split()`: the maximal runs of non-whitespace characters of `s`, in order. */
  function Split(s: string): (r: seq<string>)
    ensures forall w :: w in r ==> IsWord(w)
    ensures r == [] <==> AllSpace(s)
    decreases |s|
  {
    var i := LeadingSpaces(s);
    if i == |s| then
      assert s[..i] == s;
      []
    else
      var t := s[i..];
      var n := WordLength(t);
      assert n > 0 by { assert !IsSpace(t[0]); }
      var rest := Split(t[n..]);
      assert forall x :: x in [t[..n]] + rest ==> x == t[..n] || x in rest;
      [t[..n]] + rest
  }

  /** `sep.join(ws)`. */
  function JoinWith(ws: seq<string>, sep: string): string {
    if |ws| == 0 then "" else if |ws| == 1 then ws[0] else ws[0] + (sep + JoinWith(ws[1..], sep))
  }

  lemma {:induction false} WordLengthOfJoin(w: string, rest: string)
    requires NoSpace(w) && (rest == [] || IsSpace(rest[0]))
    ensures WordLength(w + rest) == |w|
    decreases |w|
  {
    if w != [] {
      assert (w + rest)[1..] == w[1..] + rest;
      WordLengthOfJoin(w[1..], rest);
    }
  }

  /** A word followed by whitespace (or by nothing) is split off as the first piece. */
  lemma SplitWordFirst(w: string, rest: string)
    requires IsWord(w) && (rest == [] || IsSpace(rest[0]))
    ensures Split(w + rest) == [w] + Split(rest)
  {
    var s := w + rest;
    assert s[0] == w[0];
    assert LeadingSpaces(s) == 0;
    WordLengthOfJoin(w, rest);
    assert s[..|w|] == w && s[|w|..] == rest;
  }

  /** Leading whitespace does not change the split. */
  lemma SplitSkipsSpace(c: char, x: string)
    requires IsSpace(c)
    ensures Split([c] + x) == Split(x)
  {
    var s := [c] + x;
    assert s[1..] == x;
    assert LeadingSpaces(s) == 1 + LeadingSpaces(x);
    assert s[LeadingSpaces(s)..] == x[LeadingSpaces(x)..];
  }

  /** A run of whitespace, however long, counts as one break: it is dropped from the front of the split. */
  lemma {:induction false} SplitSpaceRun(g: string, rest: string)
    requires AllSpace(g)
    ensures Split(g + rest) == Split(rest)
    decreases |g|
  {
    if g != [] {
      var c, g', rest' := g[0], g[1..], g[1..] + rest;
      assert IsSpace(c);
      assert AllSpace(g') by {
        assert forall i :: 0 <= i < |g'| ==> g'[i] == g[i + 1];
      }
      assert g + rest == [c] + rest';
      SplitSkipsSpace(c, rest');
      SplitSpaceRun(g', rest);
    } else {
      assert g + rest == rest;
    }
  }

  lemma SplitJoinCons(w: string, tail: seq<string>)
    requires IsWord(w) && |tail| >= 1
    ensures Split(JoinWith([w] + tail, " ")) == [w] + Split(JoinWith(tail, " "))
  {
    var rest := JoinWith(tail, " ");
    assert ([w] + tail)[1..] == tail;
    assert " " + rest == [' '] + rest;
    SplitWordFirst(w, " " + rest);
    SplitSkipsSpace(' ', rest);
  }

  lemma SplitSingleWord(w: string)
    requires IsWord(w)
    ensures Split(JoinWith([w], " ")) == [w]
  {
    assert w + [] == w;
    SplitWordFirst(w, []);
  }

  /** Splitting words joined by single spaces gives the words back: `" ".join(ws).split() == ws`. */
  lemma {:induction false} SplitJoinRoundTrip(ws: seq<string>)
    requires forall w :: w in ws ==> IsWord(w)
    ensures Split(JoinWith(ws, " ")) == ws
  {
    if |ws| == 1 {
      assert ws[0] in ws && ws == [ws[0]];
      SplitSingleWord(ws[0]);
    } else if |ws| > 1 {
      var w, tail := ws[0], ws[1..];
      assert w in ws && ws == [w] + tail;
      assert forall x :: x in tail ==> x in ws;
      SplitJoinRoundTrip(tail);
      SplitJoinCons(w, tail);
    }
  }

  /** `s.replace(c, d)` for single characters. */
  function ReplaceChar(s: string, c: char, d: char): (r: string)
    ensures |r| == |s|
  {
    seq(|s|, i requires 0 <= i < |s| => if s[i] == c then d else s[i])
  }

  /** `s.replace(c, '')`: `s` with every `c` deleted. */
  function RemoveChar(s: string, c: char): (r: string)
    ensures c !in r
  {
    if s == [] then [] else (if s[0] == c then [] else [s[0]]) + RemoveChar(s[1..], c)
  }

  /** The position of the first `c` in `s`, or `|s|` when there is none (`s.find(c)` without the -1). */
  function IndexOf(s: string, c: char): (n: nat)
    ensures n <= |s| && c !in s[..n]
    ensures n < |s| <==> c in s
    ensures n < |s| ==> s[n] == c
  {
    if s == [] then 0
    else if s[0] == c then 0
    else
      var m := IndexOf(s[1..], c);
      assert s[..1 + m] == [s[0]] + s[1..][..m];
      1 + m
  }

  /**
   * `s.split(c)`: the pieces of `s` between occurrences of `c`. There is one piece more
   * than there are occurrences, none of them holds `c`, and joining them with `c` gives `s`
   * back (lemma SplitOnJoin).
   */
  function SplitOn(s: string, c: char): (r: seq<string>)
    ensures |r| >= 1 && r[0] == s[..IndexOf(s, c)]
    ensures forall w :: w in r ==> c !in w
    ensures |r| >= 2 <==> c in s
    decreases |s|
  {
    var n := IndexOf(s, c);
    if n == |s| then
      assert s[..n] == s;
      [s]
    else
      var rest := SplitOn(s[n + 1..], c);
      assert forall x :: x in [s[..n]] + rest ==> x == s[..n] || x in rest;
      [s[..n]] + rest
  }

  lemma {:induction false} SplitOnJoin(s: string, c: char)
    ensures JoinWith(SplitOn(s, c), [c]) == s
    decreases |s|
  {
    var n := IndexOf(s, c);
    if n < |s| {
      var head, tail := s[..n], s[n + 1..];
      var rest := SplitOn(tail, c);
      var pieces := [head] + rest;
      assert SplitOn(s, c) == pieces;
      assert |pieces| >= 2 && pieces[0] == head && pieces[1..] == rest;
      assert JoinWith(pieces, [c]) == head + ([c] + JoinWith(rest, [c]));
      SplitOnJoin(tail, c);
      assert s == head + ([c] + tail);
    } else {
      assert s[..n] == s;
    }
  }

  predicate StartsWith(s: string, c: char) {
    |s| > 0 && s[0] == c
  }

  predicate EndsWith(s: string, c: char) {
    |s| > 0 && s[|s| - 1] == c
  }
}
