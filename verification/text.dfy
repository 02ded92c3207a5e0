/**
 * The few Python string operations the monitor's parsers rely on, written
 * out with their documented semantics: `str.isspace`, `str.split()` (runs of
 * whitespace), `str.split(sep)`, `str.split(sep, 1)`, `str.strip()`,
 * `str.splitlines()`, the `in` test for substrings and `str(int)`.
 *
 * The functions carry only quantifier-free postconditions; what each one
 * means is stated and proved in the lemma that follows it, so that callers
 * pay for those facts only where they use them.
 */
module Text {
  import opened Wrappers

  /** The characters Python's `str.isspace` (and so `split()`/`strip()`) treats as whitespace. */
  predicate IsSpace(c: char)
  {
    c == ' ' || ('\t' <= c <= '\r') || ('\U{1C}' <= c <= '\U{1F}') || c == '\U{85}' || c == '\U{A0}'
    || c == '\U{1680}' || ('\U{2000}' <= c <= '\U{200A}') || c == '\U{2028}' || c == '\U{2029}'
    || c == '\U{202F}' || c == '\U{205F}' || c == '\U{3000}'
  }

  /** The line boundaries of Python's `str.splitlines` ("\r\n" counts as one boundary). */
  predicate IsLineBreak(c: char)
  {
    ('\n' <= c <= '\r') || ('\U{1C}' <= c <= '\U{1E}') || c == '\U{85}' || c == '\U{2028}' || c == '\U{2029}'
  }

  /** `s` is all whitespace (so also when it is empty). */
  predicate AllSpace(s: string)
  {
    forall i :: 0 <= i < |s| ==> IsSpace(s[i])
  }

  /** `s` holds no whitespace. */
  predicate NoSpace(s: string)
  {
    forall i :: 0 <= i < |s| ==> !IsSpace(s[i])
  }

  /** `s` holds no line boundary. */
  predicate NoLineBreak(s: string)
  {
    forall i :: 0 <= i < |s| ==> !IsLineBreak(s[i])
  }

  lemma NoSpaceConcat(a: string, b: string)
    requires NoSpace(a) && NoSpace(b)
    ensures NoSpace(a + b)
  {
    assert forall i :: |a| <= i < |a + b| ==> (a + b)[i] == b[i - |a|];
  }

  // ---------------------------------------------------------------- strip()

  /** `s.lstrip()`. */
  function StripLeft(s: string): (r: string)
    ensures |r| <= |s|
  {
    if s != [] && IsSpace(s[0]) then StripLeft(s[1..]) else s
  }

  /** `s.lstrip()` is the longest suffix of `s` that does not start with whitespace. */
  lemma {:induction false} StripLeftSpec(s: string)
    ensures var r := StripLeft(s);
      r == s[|s| - |r|..]
      && (r == [] || !IsSpace(r[0]))
      && forall i :: 0 <= i < |s| - |r| ==> IsSpace(s[i])
  {
    if s != [] && IsSpace(s[0]) {
      StripLeftSpec(s[1..]);
    }
  }

  /** `s.rstrip()`. */
  function StripRight(s: string): (r: string)
    ensures |r| <= |s|
  {
    if s != [] && IsSpace(s[|s| - 1]) then StripRight(s[..|s| - 1]) else s
  }

  /** `s.rstrip()` is the longest prefix of `s` that does not end with whitespace. */
  lemma {:induction false} StripRightSpec(s: string)
    ensures var r := StripRight(s);
      r == s[..|r|]
      && (r == [] || !IsSpace(r[|r| - 1]))
      && forall i :: |r| <= i < |s| ==> IsSpace(s[i])
  {
    if s != [] && IsSpace(s[|s| - 1]) {
      StripRightSpec(s[..|s| - 1]);
    }
  }

  /** `s.strip()`. */
  function Strip(s: string): (r: string)
    ensures |r| <= |s|
  {
    StripRight(StripLeft(s))
  }

  /** `s.strip()` neither starts nor ends with whitespace. */
  lemma StripEnds(s: string)
    ensures var r := Strip(s);
      r == [] || (!IsSpace(r[0]) && !IsSpace(r[|r| - 1]))
  {
    var l := StripLeft(s);
    var r := StripRight(l);
    StripLeftSpec(s);
    StripRightSpec(l);
    if r != [] {
      assert r[0] == l[0];
    }
  }

  /** `s.strip()` is empty exactly when `s` is all whitespace. */
  lemma StripEmpty(s: string)
    ensures Strip(s) == [] <==> AllSpace(s)
  {
    var l := StripLeft(s);
    var r := StripRight(l);
    StripLeftSpec(s);
    StripRightSpec(l);
    if l != [] {
      assert l[0] == s[|s| - |l|];
    }
  }

  /**
   * `s.strip()` is the piece of `s` left once whitespace is cut off around
   * it: whitespace before it, whitespace after it.
   */
  lemma StripPiece(s: string)
    ensures var r, k := Strip(s), |s| - |StripLeft(s)|;
      k + |r| <= |s| && s[k..k + |r|] == r && AllSpace(s[..k]) && AllSpace(s[k + |r|..])
  {
    var l := StripLeft(s);
    var r := StripRight(l);
    StripLeftSpec(s);
    StripRightSpec(l);
    var k := |s| - |l|;
    assert s[k..k + |r|] == l[..|r|];
    assert s[k + |r|..] == l[|r|..];
  }

  // ---------------------------------------------------------------- split()

  /** Length of the run of non-whitespace characters that starts `s`. */
  function NonSpaceRun(s: string): (n: nat)
    ensures n <= |s|
  {
    if s == [] || IsSpace(s[0]) then 0 else 1 + NonSpaceRun(s[1..])
  }

  /** The run is maximal: it holds no whitespace and is followed by whitespace or the end. */
  lemma {:induction false} NonSpaceRunSpec(s: string)
    ensures var n := NonSpaceRun(s);
      (forall i :: 0 <= i < n ==> !IsSpace(s[i])) && (n == |s| || IsSpace(s[n]))
  {
    if s != [] && !IsSpace(s[0]) {
      NonSpaceRunSpec(s[1..]);
    }
  }

  /** `s.split()`. */
  function Words(s: string): (ws: seq<string>)
    decreases |s|
  {
    if s == [] then []
    else if IsSpace(s[0]) then Words(s[1..])
    else
      var n := NonSpaceRun(s);
      [s[..n]] + Words(s[n..])
  }

  /** `s.split()` yields non-empty words free of whitespace, and no words at all only for blank `s`. */
  lemma {:induction false} WordsSpec(s: string)
    ensures var ws := Words(s);
      (forall k :: 0 <= k < |ws| ==> ws[k] != [])
      && (forall k, i :: 0 <= k < |ws| && 0 <= i < |ws[k]| ==> !IsSpace(ws[k][i]))
      && (ws == [] <==> forall i :: 0 <= i < |s| ==> IsSpace(s[i]))
    decreases |s|
  {
    if s == [] {
    } else if IsSpace(s[0]) {
      WordsSpec(s[1..]);
      assert forall i :: 1 <= i < |s| ==> s[i] == s[1..][i - 1];
    } else {
      var n := NonSpaceRun(s);
      NonSpaceRunSpec(s);
      WordsSpec(s[n..]);
    }
  }

  /** `gaps[0] + ws[0] + gaps[1] + ... + ws[n - 1] + gaps[n]`: words with the text around them. */
  function Interleave(gaps: seq<string>, ws: seq<string>): string
    requires |gaps| == |ws| + 1
    decreases |ws|
  {
    if ws == [] then gaps[0] else gaps[0] + ws[0] + Interleave(gaps[1..], ws[1..])
  }

  /** Whitespace gaps, non-empty between two words (the first and the last may be empty). */
  predicate SpaceGaps(gaps: seq<string>)
  {
    (forall k :: 0 <= k < |gaps| ==> AllSpace(gaps[k]))
    && (forall k :: 0 < k < |gaps| - 1 ==> gaps[k] != [])
  }

  /** `s` is the words `ws` laid out with the whitespace gaps `gaps` around them. */
  predicate WordsLayout(s: string, ws: seq<string>, gaps: seq<string>)
  {
    |gaps| == |ws| + 1 && SpaceGaps(gaps) && Interleave(gaps, ws) == s
  }

  /** One more whitespace character in front of the first gap. */
  lemma InterleaveSpace(c: char, g: seq<string>, ws: seq<string>)
    requires |g| == |ws| + 1
    ensures Interleave([[c] + g[0]] + g[1..], ws) == [c] + Interleave(g, ws)
  {
    var gaps := [[c] + g[0]] + g[1..];
    assert gaps[1..] == g[1..];
  }

  /** One more word in front, with an empty gap before it. */
  lemma InterleaveWord(w: string, g: seq<string>, ws: seq<string>)
    requires |g| == |ws| + 1
    ensures Interleave([[]] + g, [w] + ws) == w + Interleave(g, ws)
  {
    var gs, vs := [[]] + g, [w] + ws;
    assert gs[0] == [] && vs[0] == w;
    assert gs[1..] == g && vs[1..] == ws;
    var t := Interleave(g, ws);
    assert Interleave(gs, vs) == [] + w + t;
    assert [] + w + t == w + t;
  }

  /** With an empty first gap, the text starts with the first word. */
  lemma InterleaveStartsWithWord(g: seq<string>, ws: seq<string>)
    requires |g| == |ws| + 1 && ws != [] && g[0] == [] && ws[0] != []
    ensures Interleave(g, ws)[0] == ws[0][0]
  {
    var t := Interleave(g[1..], ws[1..]);
    assert Interleave(g, ws) == g[0] + ws[0] + t;
    assert (g[0] + ws[0] + t)[0] == ws[0][0];
  }

  /** A whitespace character in front of a layout joins its first gap. */
  lemma WordsLayoutSpace(c: char, t: string, ws: seq<string>, g: seq<string>)
    requires IsSpace(c) && WordsLayout(t, ws, g)
    ensures WordsLayout([c] + t, ws, [[c] + g[0]] + g[1..])
  {
    var gaps := [[c] + g[0]] + g[1..];
    InterleaveSpace(c, g, ws);
    assert AllSpace(gaps[0]) by {
      forall i | 0 <= i < |gaps[0]| ensures IsSpace(gaps[0][i]) {
        if i > 0 { assert gaps[0][i] == g[0][i - 1]; }
      }
    }
    assert forall k :: 0 < k < |gaps| ==> gaps[k] == g[k];
  }

  /** A word in front of a layout that starts with whitespace becomes its first word. */
  lemma WordsLayoutWord(w: string, t: string, ws: seq<string>, g: seq<string>)
    requires WordsLayout(t, ws, g)
    requires ws != [] ==> t != [] && IsSpace(t[0]) && ws[0] != [] && !IsSpace(ws[0][0])
    ensures WordsLayout(w + t, [w] + ws, [[]] + g)
  {
    var gaps := [[]] + g;
    InterleaveWord(w, g, ws);
    if ws != [] && g[0] == [] {
      InterleaveStartsWithWord(g, ws);
    }
    assert forall k :: 0 < k < |gaps| ==> gaps[k] == g[k - 1];
  }

  /**
   * `s.split()` yields the words of `s` in order: `s` is exactly those words
   * with runs of whitespace around them, and a non-empty run between two words.
   */
  lemma {:induction false} WordsRebuild(s: string)
    ensures exists gaps :: WordsLayout(s, Words(s), gaps)
    decreases |s|
  {
    var ws := Words(s);
    if s == [] {
      var gaps: seq<string> := [[]];
      assert WordsLayout(s, ws, gaps);
    } else if IsSpace(s[0]) {
      WordsRebuild(s[1..]);
      var g :| WordsLayout(s[1..], ws, g);
      WordsLayoutSpace(s[0], s[1..], ws, g);
      assert s == [s[0]] + s[1..];
    } else {
      var n := NonSpaceRun(s);
      NonSpaceRunSpec(s);
      var rest := s[n..];
      var ws' := Words(rest);
      assert ws == [s[..n]] + ws';
      WordsRebuild(rest);
      WordsSpec(rest);
      var g :| WordsLayout(rest, ws', g);
      WordsLayoutWord(s[..n], rest, ws', g);
      assert s == s[..n] + rest;
    }
  }

  // ---------------------------------------------------------------- split(sep)

  /** Index of the first `c` in `s`, or `|s|` when there is none. */
  function IndexOf(s: string, c: char): (i: nat)
    ensures i <= |s|
  {
    if s == [] || s[0] == c then 0 else 1 + IndexOf(s[1..], c)
  }

  /** `IndexOf` finds the first occurrence, and reaches the end exactly when there is none. */
  lemma {:induction false} IndexOfSpec(s: string, c: char)
    ensures var i := IndexOf(s, c);
      (i < |s| ==> s[i] == c) && (forall j :: 0 <= j < i ==> s[j] != c)
      && (i == |s| <==> c !in s)
  {
    if s != [] && s[0] != c {
      IndexOfSpec(s[1..], c);
      assert s == [s[0]] + s[1..];
    }
  }

  /** `sep.join(parts)` for a one-character separator. */
  function Join(parts: seq<string>, sep: char): string
    requires |parts| >= 1
  {
    if |parts| == 1 then parts[0] else parts[0] + [sep] + Join(parts[1..], sep)
  }

  /** `s.split(sep)`. */
  function Split(s: string, sep: char): (parts: seq<string>)
    ensures |parts| >= 1
    decreases |s|
  {
    var i := IndexOf(s, sep);
    if i == |s| then [s] else [s[..i]] + Split(s[i + 1..], sep)
  }

  /** `s.split(sep)` cuts `s` at every `sep`: no piece holds `sep`, and joining the pieces gives `s` back. */
  lemma {:induction false} SplitSpec(s: string, sep: char)
    ensures var parts := Split(s, sep);
      (forall k :: 0 <= k < |parts| ==> sep !in parts[k]) && Join(parts, sep) == s
    decreases |s|
  {
    var i := IndexOf(s, sep);
    IndexOfSpec(s, sep);
    if i < |s| {
      var rest := Split(s[i + 1..], sep);
      SplitSpec(s[i + 1..], sep);
      var parts := [s[..i]] + rest;
      assert parts[1..] == rest;
      assert s == s[..i] + [sep] + s[i + 1..];
    }
  }

  /** `s.split(sep, 1)` unpacked into two names: `None` where Python raises ValueError. */
  function SplitOnce(s: string, sep: char): (r: Option<(string, string)>)
  {
    var i := IndexOf(s, sep);
    if i == |s| then None else Some((s[..i], s[i + 1..]))
  }

  /** `s.split(sep, 1)` fails exactly when `sep` is absent, and otherwise cuts at its first occurrence. */
  lemma SplitOnceSpec(s: string, sep: char)
    ensures var r := SplitOnce(s, sep);
      (r.None? <==> sep !in s)
      && (r.Some? ==> r.value.0 + [sep] + r.value.1 == s && sep !in r.value.0)
  {
    IndexOfSpec(s, sep);
    var i := IndexOf(s, sep);
    if i < |s| {
      assert s == s[..i] + [sep] + s[i + 1..];
    }
  }

  /** Without `sep` in `s`, `s.split(sep)` is `[s]`. */
  lemma SplitWithout(s: string, sep: char)
    requires sep !in s
    ensures Split(s, sep) == [s]
  {
    IndexOfSpec(s, sep);
  }

  /** `s.split(sep)` has a second piece exactly when `sep` occurs in `s`. */
  lemma SplitHasSecond(s: string, sep: char)
    ensures |Split(s, sep)| >= 2 <==> sep in s
  {
    IndexOfSpec(s, sep);
  }

  /** The first `c` in `a + [c] + b` is the one after `a` when `a` has none. */
  lemma {:induction false} IndexOfAfter(a: string, b: string, c: char)
    requires c !in a
    ensures IndexOf(a + [c] + b, c) == |a|
    decreases |a|
  {
    if a != [] {
      assert (a + [c] + b)[0] == a[0];
      assert (a + [c] + b)[1..] == a[1..] + [c] + b;
      IndexOfAfter(a[1..], b, c);
    }
  }

  /** Splitting at a first `sep` preceded by `a`: the first piece is `a`, the rest is the split of what follows. */
  lemma SplitAfter(a: string, b: string, sep: char)
    requires sep !in a
    ensures Split(a + [sep] + b, sep) == [a] + Split(b, sep)
  {
    var s := a + [sep] + b;
    IndexOfAfter(a, b, sep);
    assert s[..|a|] == a;
    assert s[|a| + 1..] == b;
  }

  /** Leading whitespace is all `lstrip()` removes. */
  lemma {:induction false} StripLeftSkips(sp: string, t: string)
    requires AllSpace(sp)
    requires t == [] || !IsSpace(t[0])
    ensures StripLeft(sp + t) == t
    decreases |sp|
  {
    if sp == [] {
      assert sp + t == t;
    } else {
      assert (sp + t)[1..] == sp[1..] + t;
      StripLeftSkips(sp[1..], t);
    }
  }

  /** A word followed by whitespace or nothing is one whole run of non-whitespace. */
  lemma {:induction false} NonSpaceRunOfWord(w: string, tail: string)
    requires NoSpace(w)
    requires tail == [] || IsSpace(tail[0])
    ensures NonSpaceRun(w + tail) == |w|
    decreases |w|
  {
    if w == [] {
      assert w + tail == tail;
    } else {
      assert (w + tail)[1..] == w[1..] + tail;
      NonSpaceRunOfWord(w[1..], tail);
    }
  }

  /** A word followed by whitespace or nothing is the first word `split()` yields. */
  lemma FirstWord(w: string, tail: string)
    requires w != [] && NoSpace(w)
    requires tail == [] || IsSpace(tail[0])
    ensures Words(w + tail) != [] && Words(w + tail)[0] == w
  {
    NonSpaceRunOfWord(w, tail);
    assert (w + tail)[..|w|] == w;
  }

  /** `rstrip()` keeps a leading word whole, and what it keeps after the word starts with whitespace. */
  lemma StripRightKeepsWord(w: string, rest: string)
    requires w != [] && NoSpace(w)
    requires rest == [] || IsSpace(rest[0])
    ensures var r := StripRight(w + rest);
      |r| >= |w| && r == w + r[|w|..] && (r[|w|..] == [] || IsSpace(r[|w|..][0]))
  {
    var t := w + rest;
    var r := StripRight(t);
    StripRightSpec(t);
    assert t[|w| - 1] == w[|w| - 1];
    assert |r| >= |w|;
    assert r[..|w|] == w;
    if |r| > |w| {
      assert r[|w|] == rest[0];
    }
  }

  /**
   * After whitespace `sp`, a word `w` followed by whitespace or nothing is
   * the first word of `(sp + w + rest).strip().split()`.
   */
  lemma FirstWordAfterStrip(sp: string, w: string, rest: string)
    requires AllSpace(sp)
    requires w != [] && NoSpace(w)
    requires rest == [] || IsSpace(rest[0])
    ensures Words(Strip(sp + w + rest)) != [] && Words(Strip(sp + w + rest))[0] == w
  {
    var t := w + rest;
    assert sp + w + rest == sp + t;
    StripLeftSkips(sp, t);
    StripRightKeepsWord(w, rest);
    var r := StripRight(t);
    FirstWord(w, r[|w|..]);
  }

  // ---------------------------------------------------------------- `sub in s`

  /** `sub` occurs in `s` starting at index `i`. */
  predicate OccursAt(s: string, sub: string, i: nat)
  {
    i + |sub| <= |s| && s[i..i + |sub|] == sub
  }

  /** `sub in s` for strings. */
  predicate Contains(s: string, sub: string)
    decreases |s|
  {
    if |sub| > |s| then false
    else if s[..|sub|] == sub then true
    else Contains(s[1..], sub)
  }

  /** `sub in s` holds exactly when `sub` occurs in `s` at some position. */
  lemma {:induction false} ContainsSpec(s: string, sub: string)
    ensures Contains(s, sub) <==> exists i: nat :: OccursAt(s, sub, i)
    decreases |s|
  {
    if |sub| > |s| {
    } else if s[..|sub|] == sub {
      assert OccursAt(s, sub, 0);
    } else {
      ContainsSpec(s[1..], sub);
      if Contains(s[1..], sub) {
        var j: nat :| OccursAt(s[1..], sub, j);
        assert s[j + 1..j + 1 + |sub|] == s[1..][j..j + |sub|];
        assert OccursAt(s, sub, j + 1);
      }
      if exists i: nat :: OccursAt(s, sub, i) {
        var i: nat :| OccursAt(s, sub, i);
        assert i != 0;
        assert s[1..][i - 1..i - 1 + |sub|] == s[i..i + |sub|];
        assert OccursAt(s[1..], sub, i - 1);
      }
    }
  }

  // ---------------------------------------------------------------- splitlines()

  /** Index of the first line boundary in `s`, or `|s|` when there is none. */
  function LineEnd(s: string): (i: nat)
    ensures i <= |s|
  {
    if s == [] || IsLineBreak(s[0]) then 0 else 1 + LineEnd(s[1..])
  }

  /** `LineEnd` stops at the first line boundary. */
  lemma {:induction false} LineEndSpec(s: string)
    ensures var i := LineEnd(s);
      (i < |s| ==> IsLineBreak(s[i])) && forall j :: 0 <= j < i ==> !IsLineBreak(s[j])
  {
    if s != [] && !IsLineBreak(s[0]) {
      LineEndSpec(s[1..]);
    }
  }

  /** Where the boundary starting at `i` ends: after "\r\n", otherwise after the one character. */
  function BoundaryEnd(s: string, i: nat): (next: nat)
    requires i < |s|
    ensures i < next <= |s|
  {
    if s[i] == '\r' && i + 1 < |s| && s[i + 1] == '\n' then i + 2 else i + 1
  }

  /** `s.splitlines()`. */
  function SplitLines(s: string): (lines: seq<string>)
    decreases |s|
  {
    if s == [] then []
    else
      var i := LineEnd(s);
      if i == |s| then [s]
      else
        var next := BoundaryEnd(s, i);
        [s[..i]] + SplitLines(s[next..])
  }

  /** `s.splitlines()` yields lines free of line boundaries, and no lines exactly for the empty string. */
  lemma {:induction false} SplitLinesSpec(s: string)
    ensures var lines := SplitLines(s);
      (s == [] <==> lines == []) && forall k :: 0 <= k < |lines| ==> NoLineBreak(lines[k])
    decreases |s|
  {
    if s != [] {
      var i := LineEnd(s);
      LineEndSpec(s);
      assert NoLineBreak(s[..i]);
      if i < |s| {
        var next := BoundaryEnd(s, i);
        var rest := SplitLines(s[next..]);
        SplitLinesSpec(s[next..]);
        assert SplitLines(s) == [s[..i]] + rest;
      }
    }
  }

  /** A line boundary as `splitlines` consumes it: one line-break character, or "\r\n". */
  predicate IsBoundary(b: string)
  {
    b == "\r\n" || (|b| == 1 && IsLineBreak(b[0]))
  }

  /** `lines[0] + ends[0] + lines[1] + ends[1] + ...`: lines put back with what ended them. */
  function Rejoin(lines: seq<string>, ends: seq<string>): string
    requires |lines| == |ends|
    decreases |lines|
  {
    if lines == [] then [] else lines[0] + ends[0] + Rejoin(lines[1..], ends[1..])
  }

  /**
   * What ends each line: a boundary after every line but the last, a
   * boundary or nothing after the last (and then that line is not empty),
   * and never a "\r" that leaves the "\n" of a "\r\n" to start an empty line.
   */
  predicate LineEnds(lines: seq<string>, ends: seq<string>)
    requires |lines| == |ends|
  {
    (forall k :: 0 <= k < |ends| - 1 ==> IsBoundary(ends[k]))
    && (|ends| > 0 ==> IsBoundary(ends[|ends| - 1]) || (ends[|ends| - 1] == [] && lines[|lines| - 1] != []))
    && (forall k :: 0 <= k < |ends| - 1 && ends[k] == "\r" ==> lines[k + 1] != [] || ends[k + 1] != "\n")
  }

  /** `s` is the lines `lines`, each followed by what ended it in `ends`. */
  predicate LinesLayout(s: string, lines: seq<string>, ends: seq<string>)
  {
    |ends| == |lines| && LineEnds(lines, ends) && Rejoin(lines, ends) == s
  }

  /** With an empty first line, the text starts with the first line's end. */
  lemma RejoinStartsWithEnd(lines: seq<string>, ends: seq<string>)
    requires |lines| == |ends| && lines != [] && lines[0] == [] && ends[0] != []
    ensures Rejoin(lines, ends)[0] == ends[0][0]
  {
    assert Rejoin(lines, ends) == ends[0] + Rejoin(lines[1..], ends[1..]);
  }

  /**
   * A line and a boundary in front of a layout become its first line and
   * end; a "\r" boundary must not be followed by a "\n".
   */
  lemma LinesLayoutCons(s: string, line: string, b: string, t: string, lines: seq<string>, ends: seq<string>)
    requires s == line + b + t
    requires LinesLayout(t, lines, ends) && IsBoundary(b)
    requires b == "\r" && t != [] ==> t[0] != '\n'
    ensures LinesLayout(s, [line] + lines, [b] + ends)
  {
    var ls, es := [line] + lines, [b] + ends;
    assert ls[1..] == lines && es[1..] == ends;
    if lines != [] && lines[0] == [] && ends[0] != [] {
      RejoinStartsWithEnd(lines, ends);
    }
    assert lines != [] ==> t != [];
    assert forall k :: 0 < k < |es| ==> es[k] == ends[k - 1] && ls[k] == lines[k - 1];
  }

  /** Cutting `s` at `i` and `j` and joining the three pieces gives `s` back. */
  lemma SliceJoin(s: string, i: nat, j: nat)
    requires i <= j <= |s|
    ensures s == s[..i] + s[i..j] + s[j..]
  {
  }

  /** Text without a line break is a single line with nothing ending it. */
  lemma SingleLine(s: string)
    requires s != []
    ensures LinesLayout(s, [s], [[]])
  {
    assert Rejoin([s], [[]]) == s + [] + [];
  }

  /** The boundary at a line break is one, and a lone "\r" is not followed by "\n". */
  lemma BoundaryAt(s: string, i: nat)
    requires i < |s| && IsLineBreak(s[i])
    ensures var next := BoundaryEnd(s, i);
      IsBoundary(s[i..next]) && (s[i..next] == "\r" && next < |s| ==> s[next] != '\n')
  {
    var next := BoundaryEnd(s, i);
    if next == i + 2 {
      assert s[i..next] == [s[i], s[i + 1]];
    } else {
      assert s[i..next] == [s[i]];
    }
  }

  /** The boundaries `splitlines` removes, one per line (empty after an unterminated last line). */
  function EndsOf(s: string): (ends: seq<string>)
    decreases |s|
  {
    if s == [] then []
    else
      var i := LineEnd(s);
      if i == |s| then [[]]
      else
        var next := BoundaryEnd(s, i);
        [s[i..next]] + EndsOf(s[next..])
  }

  /** The lines of `s`, each followed by the boundary removed after it, make up `s`. */
  lemma {:induction false} LinesLayoutOf(s: string)
    ensures LinesLayout(s, SplitLines(s), EndsOf(s))
    decreases |s|
  {
    if s != [] {
      var i := LineEnd(s);
      LineEndSpec(s);
      if i == |s| {
        assert SplitLines(s) == [s] && EndsOf(s) == [[]];
        SingleLine(s);
      } else {
        var next := BoundaryEnd(s, i);
        var rest := s[next..];
        var b := s[i..next];
        assert SplitLines(s) == [s[..i]] + SplitLines(rest);
        assert EndsOf(s) == [b] + EndsOf(rest);
        LinesLayoutOf(rest);
        BoundaryAt(s, i);
        SliceJoin(s, i, next);
        LinesLayoutCons(s, s[..i], b, rest, SplitLines(rest), EndsOf(rest));
      }
    }
  }

  /**
   * `s.splitlines()` yields the lines of `s` in order: each line followed by
   * the boundary that ended it gives `s` back, the last boundary possibly absent.
   */
  lemma SplitLinesRebuild(s: string)
    ensures exists ends :: LinesLayout(s, SplitLines(s), ends)
  {
    LinesLayoutOf(s);
  }

  // ---------------------------------------------------------------- str(int)

  predicate IsDigit(c: char)
  {
    '0' <= c <= '9'
  }

  predicate AllDigits(s: string)
  {
    forall i :: 0 <= i < |s| ==> IsDigit(s[i])
  }

  function DigitChar(d: nat): (c: char)
    requires d < 10
    ensures IsDigit(c) && c as int - '0' as int == d
  {
    ('0' as int + d) as char
  }

  /** The value of a string of decimal digits, most significant first. */
  function DigitsValue(s: string): int
    requires AllDigits(s)
  {
    if s == [] then 0 else DigitsValue(s[..|s| - 1]) * 10 + (s[|s| - 1] as int - '0' as int)
  }

  /** `str(n)` for a natural number: decimal digits without leading zeros. */
  function NatToString(n: nat): (s: string)
    ensures |s| >= 1 && AllDigits(s)
    ensures |s| > 1 ==> s[0] != '0'
    decreases n
  {
    if n < 10 then [DigitChar(n)] else NatToString(n / 10) + [DigitChar(n % 10)]
  }

  /** Reading back the digits `str(n)` produces gives `n`. */
  lemma {:induction false} NatToStringValue(n: nat)
    ensures DigitsValue(NatToString(n)) == n
    decreases n
  {
    if n >= 10 {
      var s := NatToString(n);
      NatToStringValue(n / 10);
      assert s[..|s| - 1] == NatToString(n / 10);
    }
  }

  /** `str(n)` for any integer: a minus sign before the digits of `|n|` when `n` is negative. */
  function IntToString(n: int): (s: string)
    ensures |s| >= 1
    ensures (s[0] == '-') <==> n < 0
  {
    if n < 0 then "-" + NatToString(-n) else NatToString(n)
  }

  /** The value of an optionally signed decimal numeral. */
  function SignedValue(s: string): int
    requires |s| >= 1
    requires if s[0] == '-' then AllDigits(s[1..]) else AllDigits(s)
  {
    if s[0] == '-' then -DigitsValue(s[1..]) else DigitsValue(s)
  }

  /** `str(n)` is decimal notation for `n`: reading it back gives `n`. */
  lemma IntToStringValue(n: int)
    ensures var s := IntToString(n);
      (if s[0] == '-' then AllDigits(s[1..]) else AllDigits(s)) && SignedValue(s) == n
  {
    var s := IntToString(n);
    if n < 0 {
      assert s[1..] == NatToString(-n);
      NatToStringValue(-n);
    } else {
      NatToStringValue(n);
    }
  }
}
