/** The Python string operations the client's parsers rely on. */
module Text {

  /** The characters `shlex.split` separates tokens on. */
  const Whitespace: set<char> := {' ', '\t', '\r', '\n'}

  /** The line boundaries of `str.splitlines` (restricted to ASCII plus the Unicode ones). */
  const LineBreaks: set<char> :=
    {'\n', '\r', '\U{0B}', '\U{0C}', '\U{1C}', '\U{1D}', '\U{1E}', '\U{85}', '\U{2028}', '\U{2029}'}

  /** Index of the first character of `s` that is in `stop`, or `|s|` when there is none. */
  function Span(s: string, stop: set<char>): (i: nat)
    ensures i <= |s|
    ensures forall k :: 0 <= k < i ==> s[k] !in stop
    ensures i < |s| ==> s[i] in stop
  {
    if s == [] || s[0] in stop then 0 else 1 + Span(s[1..], stop)
  }

  /** `s` cut at every character of `seps`; the separators are dropped. */
  function SplitBy(s: string, seps: set<char>): (parts: seq<string>)
    decreases |s|
  {
    var i := Span(s, seps);
    if i == |s| then [s] else [s[..i]] + SplitBy(s[i + 1..], seps)
  }

  /** `s.split(c)` (and `re.split(c, s)` for a literal one-character pattern). */
  function Split(s: string, c: char): (parts: seq<string>)
    ensures |parts| >= 1
  {
    SplitBy(s, {c})
  }

  /** `c.join(parts)` for a one-character separator. */
  function JoinWith(parts: seq<string>, c: char): string
    requires |parts| >= 1
  {
    if |parts| == 1 then parts[0] else parts[0] + [c] + JoinWith(parts[1..], c)
  }

  /** `s.split(c)[0]`: the text before the first `c`, or all of `s`. */
  function Before(s: string, c: char): (r: string)
    ensures r == Split(s, c)[0]
  {
    s[..Span(s, {c})]
  }

  /** `s.split(c, 1)[1]`: everything after the first `c`. */
  function After(s: string, c: char): (r: string)
    requires c in s
    ensures Before(s, c) + [c] + r == s
  {
    s[Span(s, {c}) + 1..]
  }

  /** No part of a split holds the separator. */
  lemma {:induction false} SplitPartsFree(s: string, c: char)
    ensures forall k :: 0 <= k < |Split(s, c)| ==> c !in Split(s, c)[k]
    decreases |s|
  {
    var i := Span(s, {c});
    if i < |s| {
      SplitPartsFree(s[i + 1..], c);
      assert Split(s, c) == [s[..i]] + Split(s[i + 1..], c);
    }
  }

  /** Joining the parts of a split with the separator gives back the string. */
  lemma {:induction false} SplitJoin(s: string, c: char)
    ensures JoinWith(Split(s, c), c) == s
    decreases |s|
  {
    var i := Span(s, {c});
    if i < |s| {
      SplitJoin(s[i + 1..], c);
      assert Split(s, c) == [s[..i]] + Split(s[i + 1..], c);
      assert s == s[..i] + [c] + s[i + 1..];
    }
  }

  /** A split has a second part exactly when the separator occurs. */
  lemma SplitHasSecond(s: string, c: char)
    ensures |Split(s, c)| >= 2 <==> c in s
  {
    var i := Span(s, {c});
    if c in s {
      var k :| 0 <= k < |s| && s[k] == c;
      assert i <= k;
      assert Split(s, c) == [s[..i]] + Split(s[i + 1..], c);
    } else {
      assert i == |s|;
    }
  }

  /** `s.split(c)[1]` is the text between the first and the second `c`. */
  lemma SplitSecond(s: string, c: char)
    requires c in s
    ensures |Split(s, c)| >= 2 && Split(s, c)[1] == Before(After(s, c), c)
  {
    SplitHasSecond(s, c);
    var i := Span(s, {c});
    assert i < |s|;
    assert Split(s, c) == [s[..i]] + Split(s[i + 1..], c);
  }

  /** Splitting `x + c + y` where `x` is free of `c`. */
  lemma SplitCons(x: string, c: char, y: string)
    requires c !in x
    ensures Split(x + [c] + y, c) == [x] + Split(y, c)
  {
    var s := x + [c] + y;
    assert s[|x|] == c;
    assert Span(s, {c}) == |x|;
    assert s[..|x|] == x && s[|x| + 1..] == y;
  }

  /** Four pieces free of `c`, joined by `c`, split back into themselves. */
  lemma SplitFour(a: string, b: string, d: string, e: string, c: char)
    requires c !in a && c !in b && c !in d && c !in e
    ensures Split(a + [c] + (b + [c] + (d + [c] + e)), c) == [a, b, d, e]
  {
    SplitNone(e, c);
    SplitCons(d, c, e);
    SplitCons(b, c, d + [c] + e);
    SplitCons(a, c, b + [c] + (d + [c] + e));
  }

  /** Splitting a string free of `c`. */
  lemma SplitNone(x: string, c: char)
    requires c !in x
    ensures Split(x, c) == [x]
  {
  }

  /** The parts that are not empty, in order. */
  function NonEmpty(parts: seq<string>): (r: seq<string>)
    ensures forall k :: 0 <= k < |r| ==> r[k] != [] && r[k] in parts
    ensures |r| <= |parts|
  {
    if parts == [] then []
    else if parts[0] == [] then NonEmpty(parts[1..])
    else [parts[0]] + NonEmpty(parts[1..])
  }

  /** `shlex.split(s)` for text with no quote, backslash or comment characters. */
  function Words(s: string): (r: seq<string>)
  {
    NonEmpty(SplitBy(s, Whitespace))
  }

  /** Text `shlex.split` treats as plain whitespace-separated tokens. */
  predicate Unquoted(s: string) {
    forall i :: 0 <= i < |s| ==> s[i] != '\'' && s[i] != '"' && s[i] != '\\'
  }

  predicate IsWord(w: string) {
    w != [] && forall i :: 0 <= i < |w| ==> w[i] !in Whitespace
  }

  lemma SplitByCons(x: string, c: char, y: string, seps: set<char>)
    requires c in seps && forall k :: 0 <= k < |x| ==> x[k] !in seps
    ensures SplitBy(x + [c] + y, seps) == [x] + SplitBy(y, seps)
  {
    var s := x + [c] + y;
    assert s[|x|] == c;
    assert Span(s, seps) == |x|;
    assert s[..|x|] == x && s[|x| + 1..] == y;
  }

  /** Every token of `Words` is a non-empty run free of whitespace. */
  lemma {:induction false} WordsAreWords(s: string)
    ensures forall k :: 0 <= k < |Words(s)| ==> IsWord(Words(s)[k])
  {
    SplitByFree(s, Whitespace);
  }

  lemma {:induction false} SplitByFree(s: string, seps: set<char>)
    ensures forall k, j :: 0 <= k < |SplitBy(s, seps)| && 0 <= j < |SplitBy(s, seps)[k]| ==>
      SplitBy(s, seps)[k][j] !in seps
    decreases |s|
  {
    var i := Span(s, seps);
    if i < |s| {
      SplitByFree(s[i + 1..], seps);
    }
  }

  /** Tokens joined by single spaces are split back into the same tokens. */
  lemma {:induction false} WordsOfJoin(ws: seq<string>)
    requires |ws| >= 1
    requires forall k :: 0 <= k < |ws| ==> IsWord(ws[k])
    ensures Words(JoinWith(ws, ' ')) == ws
  {
    if |ws| == 1 {
      assert Span(ws[0], Whitespace) == |ws[0]|;
    } else {
      WordsOfJoin(ws[1..]);
      SplitByCons(ws[0], ' ', JoinWith(ws[1..], ' '), Whitespace);
    }
  }

  /** `s.lstrip(chars)`. */
  function LStrip(s: string, chars: set<char>): (r: string)
    ensures |r| <= |s| && r == s[|s| - |r|..]
    ensures r == [] || r[0] !in chars
    ensures forall k :: 0 <= k < |s| - |r| ==> s[k] in chars
  {
    if s != [] && s[0] in chars then LStrip(s[1..], chars) else s
  }

  /** `s.rstrip(chars)`: note that the argument is a set of characters, not a suffix. */
  function RStrip(s: string, chars: set<char>): (r: string)
    ensures |r| <= |s| && r == s[..|r|]
    ensures r == [] || r[|r| - 1] !in chars
    ensures forall k :: |r| <= k < |s| ==> s[k] in chars
  {
    if s != [] && s[|s| - 1] in chars then RStrip(s[..|s| - 1], chars) else s
  }

  /** `s[n:]` for `n >= 0`: empty once `n` passes the end. */
  function Drop(s: string, n: nat): (r: string)
  {
    if n >= |s| then [] else s[n..]
  }

  /** `s.startswith(p)`. */
  predicate StartsWith(s: string, p: string) {
    |p| <= |s| && s[..|p|] == p
  }

  /** `s.splitlines()`: one line per boundary, `"\r\n"` counting as one, no trailing empty line. */
  function Lines(s: string): (r: seq<string>)
    ensures forall k, j :: 0 <= k < |r| && 0 <= j < |r[k]| ==> r[k][j] !in LineBreaks
    decreases |s|
  {
    if s == [] then []
    else
      var i := Span(s, LineBreaks);
      if i == |s| then [s]
      else if s[i] == '\r' && i + 1 < |s| && s[i + 1] == '\n' then [s[..i]] + Lines(s[i + 2..])
      else [s[..i]] + Lines(s[i + 1..])
  }

  /** Each line followed by `"\n"`, as a file written line by line. */
  function Terminated(ls: seq<string>): string {
    if ls == [] then [] else ls[0] + "\n" + Terminated(ls[1..])
  }

  /** Lines written with newline terminators are read back as the same lines. */
  lemma {:induction false} LinesOfTerminated(ls: seq<string>)
    requires forall k, j :: 0 <= k < |ls| && 0 <= j < |ls[k]| ==> ls[k][j] !in LineBreaks
    ensures Lines(Terminated(ls)) == ls
  {
    if ls != [] {
      LinesCons(ls[0], Terminated(ls[1..]));
      LinesOfTerminated(ls[1..]);
    }
  }

  /** A line free of line breaks and ended by `"\n"` is read back first. */
  lemma LinesCons(x: string, t: string)
    requires forall j :: 0 <= j < |x| ==> x[j] !in LineBreaks
    ensures Lines(x + "\n" + t) == [x] + Lines(t)
  {
    var s := x + "\n" + t;
    assert s[|x|] == '\n';
    assert Span(s, LineBreaks) == |x|;
    assert s[..|x|] == x && s[|x| + 1..] == t;
  }
}
