/**
 * The handful of Python `str` and `list` operations that the two scripts
 * rely on, stated on `string` (= `seq<char>`) and `seq<string>`.
 *
 * - `str.strip()` / `str.isspace()`: every character Python treats as
 *   whitespace is in `IsSpace` (the Unicode White_Space characters plus the
 *   four ASCII separators U+001C..U+001F).
 * - `str.lower()`: ASCII letters only.
 * - `str.splitlines()`: splits on '\n' only.
 */
module Text {

  /** Python's `c.isspace()`. */
  predicate IsSpace(c: char) {
    ('\t' <= c <= '\r') || ('\U{1c}' <= c <= ' ') || c == '\U{85}' || c == '\U{a0}'
    || c == '\U{1680}' || ('\U{2000}' <= c <= '\U{200a}') || c == '\U{2028}' || c == '\U{2029}'
    || c == '\U{202f}' || c == '\U{205f}' || c == '\U{3000}'
  }

  predicate AllSpace(s: string) {
    forall k :: 0 <= k < |s| ==> IsSpace(s[k])
  }

  /** Python's `s.rstrip()`. */
  function RStrip(s: string): (r: string)
    ensures r <= s && AllSpace(s[|r|..])
    ensures r == [] || !IsSpace(r[|r| - 1])
  {
    if s != [] && IsSpace(s[|s| - 1]) then
      var r := RStrip(s[..|s| - 1]);
      assert s[|r|..] == s[..|s| - 1][|r|..] + [s[|s| - 1]];
      r
    else
      assert s[|s|..] == [];
      s
  }

  /** Python's `s.strip()`: `s` without its leading and trailing whitespace. */
  function Strip(s: string): (r: string)
    ensures |r| <= |s|
    ensures r == [] <==> AllSpace(s)
    ensures r != [] ==> !IsSpace(r[0]) && !IsSpace(r[|r| - 1])
  {
    if s != [] && IsSpace(s[0]) then
      var r := Strip(s[1..]);
      assert AllSpace(s) <==> AllSpace(s[1..]) by { AllSpaceSplit(s, 1); }
      r
    else
      var r := RStrip(s);
      assert r == [] ==> AllSpace(s) by { assert s[0..] == s; }
      r
  }

  /** What `Strip` removes is whitespace at either end and nothing else. */
  lemma {:induction false} StripIsSlice(s: string)
    ensures exists i :: SliceWithSpaceAround(s, Strip(s), i)
  {
    var r := Strip(s);
    if s != [] && IsSpace(s[0]) {
      StripIsSlice(s[1..]);
      var i :| SliceWithSpaceAround(s[1..], r, i);
      SliceShift(s, r, i);
    } else {
      assert r == RStrip(s);
      assert r == s[0..|r|];
      assert s[..0] == [];
      assert s[0 + |r|..] == s[|r|..];
      assert SliceWithSpaceAround(s, r, 0);
    }
  }

  /** `r` sits at index `i` of `s`, with nothing but whitespace before and after it. */
  predicate SliceWithSpaceAround(s: string, r: string, i: int) {
    0 <= i <= |s| - |r| && r == s[i..i + |r|] && AllSpace(s[..i]) && AllSpace(s[i + |r|..])
  }

  lemma SliceShift(s: string, r: string, i: int)
    requires s != [] && IsSpace(s[0]) && SliceWithSpaceAround(s[1..], r, i)
    ensures SliceWithSpaceAround(s, r, i + 1)
  {
    var t := s[1..];
    assert t[i..i + |r|] == s[i + 1..i + 1 + |r|];
    assert t[i + |r|..] == s[i + 1 + |r|..];
    forall k | 0 <= k < i + 1 ensures IsSpace(s[k]) {
      if k > 0 { assert s[k] == t[..i][k - 1]; }
    }
  }

  /** Stripping keeps only characters of the original. */
  lemma StripChars(s: string, c: char)
    ensures c in Strip(s) ==> c in s
  {
    StripIsSlice(s);
    var r := Strip(s);
    if c in r {
      var i :| SliceWithSpaceAround(s, r, i);
      var k :| 0 <= k < |r| && r[k] == c;
      assert s[i + k] == c;
    }
  }

  lemma AllSpaceSplit(s: string, i: nat)
    requires i <= |s|
    ensures AllSpace(s) <==> AllSpace(s[..i]) && AllSpace(s[i..])
  {
    if AllSpace(s[..i]) && AllSpace(s[i..]) {
      forall k | 0 <= k < |s| ensures IsSpace(s[k]) {
        if k < i { assert s[..i][k] == s[k]; } else { assert s[i..][k - i] == s[k]; }
      }
    }
    if AllSpace(s) {
      forall k | 0 <= k < |s| - i ensures IsSpace(s[i..][k]) { assert s[i..][k] == s[i + k]; }
    }
  }

  /** `not line.strip()`: the line holds nothing but whitespace (see `BlankIffStripEmpty`). */
  predicate IsBlank(line: string) {
    AllSpace(line)
  }

  lemma BlankIffStripEmpty(line: string)
    ensures IsBlank(line) <==> Strip(line) == []
  {
  }

  predicate StartsWith(s: string, prefix: string) {
    |prefix| <= |s| && s[..|prefix|] == prefix
  }

  /** A markdown line that opens a section: it starts with `## `. */
  predicate IsSectionHeader(line: string) {
    StartsWith(line, "## ")
  }

  function LowerChar(c: char): char {
    if 'A' <= c <= 'Z' then (c as int + 32) as char else c
  }

  /** Python's `s.lower()`, restricted to ASCII letters. */
  function Lower(s: string): string {
    if s == [] then [] else [LowerChar(s[0])] + Lower(s[1..])
  }

  /** Lowering works character by character and keeps the length. */
  lemma {:induction false} LowerPointwise(s: string)
    ensures |Lower(s)| == |s| && forall k :: 0 <= k < |s| ==> Lower(s)[k] == LowerChar(s[k])
  {
    if s != [] {
      LowerPointwise(s[1..]);
    }
  }

  /** Index of the first `c` in `s`, or `|s|` when there is none. */
  function IndexOf(s: string, c: char): (i: nat)
    ensures i <= |s|
    ensures c !in s[..i]
    ensures i < |s| ==> s[i] == c
  {
    if s == [] then 0 else if s[0] == c then 0 else 1 + IndexOf(s[1..], c)
  }

  /** Python's `s.rfind(c)`: index of the last `c`, or -1. */
  function LastIndexOf(s: string, c: char): (i: int)
    ensures -1 <= i < |s|
    ensures c !in s[i + 1..]
    ensures 0 <= i ==> s[i] == c
  {
    if s == [] then -1 else if s[|s| - 1] == c then |s| - 1 else LastIndexOf(s[..|s| - 1], c)
  }

  /** The last `c` in `s` is at `i` when `s[i]` is `c` and nothing after it is. */
  lemma {:induction false} LastIndexOfUnique(s: string, c: char, i: nat)
    requires i < |s| && s[i] == c
    requires forall k :: i < k < |s| ==> s[k] != c
    ensures LastIndexOf(s, c) == i
  {
    if i < |s| - 1 {
      LastIndexOfUnique(s[..|s| - 1], c, i);
    }
  }

  /** The first `c` in `s` is at `i` when `s[i]` is `c` and nothing before it is. */
  lemma {:induction false} IndexOfUnique(s: string, c: char, i: nat)
    requires i <= |s| && (i < |s| ==> s[i] == c)
    requires forall k :: 0 <= k < i ==> s[k] != c
    ensures IndexOf(s, c) == i
  {
    if 0 < i {
      IndexOfUnique(s[1..], c, i - 1);
    }
  }

  // Regrouping of sequences, kept apart so that each is proved on its own.

  lemma AppendAssoc<T>(x: seq<T>, y: seq<T>, z: seq<T>)
    ensures (x + y) + z == x + (y + z)
  {
  }

  lemma SnocSplit<T>(a: seq<T>, b: seq<T>)
    requires b != []
    ensures b == b[..|b| - 1] + [b[|b| - 1]]
    ensures a + b == (a + b[..|b| - 1]) + [b[|b| - 1]]
  {
  }

  lemma SliceSplit<T>(s: seq<T>, i: nat, j: nat)
    requires i <= j <= |s|
    ensures s == s[..i] + s[i..j] + s[j..]
  {
  }

  lemma Regroup<T>(p: seq<T>, a: seq<T>, t: seq<T>, b: seq<T>, q: seq<T>)
    ensures p + (a + t + b) + q == (p + a) + t + (b + q)
  {
  }

  /** `"".join(parts)`: what writing the parts one after another produces. */
  function Concat(parts: seq<string>): string {
    if parts == [] then [] else parts[0] + Concat(parts[1..])
  }

  /** Writing one more part after the others. */
  lemma {:induction false} ConcatSnoc(parts: seq<string>, x: string)
    ensures Concat(parts + [x]) == Concat(parts) + x
  {
    if parts == [] {
      assert [] + [x] == [x];
    } else {
      ConcatSnoc(parts[1..], x);
      assert (parts + [x])[1..] == parts[1..] + [x];
    }
  }

  /** `sep.join(parts)`. */
  function Join(parts: seq<string>, sep: string): string {
    if parts == [] then [] else if |parts| == 1 then parts[0] else parts[0] + sep + Join(parts[1..], sep)
  }

  /** A join starts with its first part and ends with its last. */
  lemma {:induction false} JoinEnds(parts: seq<string>, sep: string)
    requires parts != []
    ensures parts[0] <= Join(parts, sep)
    ensures var j, l := Join(parts, sep), parts[|parts| - 1]; |l| <= |j| && j[|j| - |l|..] == l
  {
    if |parts| > 1 {
      var rest := Join(parts[1..], sep);
      JoinEnds(parts[1..], sep);
      var l := parts[|parts| - 1];
      assert parts[1..][|parts[1..]| - 1] == l;
      var j := parts[0] + sep + rest;
      assert j[|j| - |l|..] == rest[|rest| - |l|..];
    }
  }

  /**
   * `s.splitlines()` for '\n' only: the pieces between newlines, where a
   * final newline does not start a further, empty piece.
   */
  function SplitLines(s: string): (lines: seq<string>)
    ensures forall k :: 0 <= k < |lines| ==> '\n' !in lines[k]
    ensures lines == [] <==> s == []
    decreases |s|
  {
    if s == [] then []
    else
      var i := IndexOf(s, '\n');
      if i == |s| then [s] else [s[..i]] + SplitLines(s[i + 1..])
  }

  /** Python's `s.lstrip(c)`. */
  function LStripChar(s: string, c: char): (r: string)
    ensures exists i :: 0 <= i <= |s| && r == s[i..] && (forall k :: 0 <= k < i ==> s[k] == c)
    ensures r == [] || r[0] != c
  {
    if s != [] && s[0] == c then
      var r := LStripChar(s[1..], c);
      var i :| 0 <= i <= |s| - 1 && r == s[1..][i..] && (forall k :: 0 <= k < i ==> s[1..][k] == c);
      assert r == s[i + 1..];
      r
    else
      assert s[0..] == s;
      s
  }

  predicate EndsWith(s: string, suffix: string) {
    |suffix| <= |s| && s[|s| - |suffix|..] == suffix
  }

  /** The `n` characters of `s` from index `i` on. */
  function Window(s: string, i: nat, n: nat): string
    requires i + n <= |s|
  {
    s[i..i + n]
  }

  /** Python's `pattern in s`. */
  predicate Contains(s: string, pattern: string) {
    exists i: nat :: i + |pattern| <= |s| && Window(s, i, |pattern|) == pattern
  }

  /** Python's `s.replace(pattern, "")`: leftmost, non-overlapping occurrences removed. */
  function RemoveAll(s: string, pattern: string): string
    requires pattern != []
    decreases |s|
  {
    if |s| < |pattern| then s
    else if s[..|pattern|] == pattern then RemoveAll(s[|pattern|..], pattern)
    else [s[0]] + RemoveAll(s[1..], pattern)
  }

  /** Python's `a < b` on strings: lexicographic by code point. */
  predicate LexLess(a: string, b: string) {
    if a == [] then b != []
    else if b == [] then false
    else a[0] < b[0] || (a[0] == b[0] && LexLess(a[1..], b[1..]))
  }

  predicate LexLessEq(a: string, b: string) {
    a == b || LexLess(a, b)
  }

  lemma {:induction false} LexLessIrreflexive(a: string)
    ensures !LexLess(a, a)
  {
    if a != [] { LexLessIrreflexive(a[1..]); }
  }

  lemma {:induction false} LexLessTransitive(a: string, b: string, c: string)
    requires LexLess(a, b) && LexLess(b, c)
    ensures LexLess(a, c)
  {
    if a != [] && a[0] == b[0] && b[0] == c[0] {
      LexLessTransitive(a[1..], b[1..], c[1..]);
    }
  }

  /** Any two distinct strings are ordered one way or the other. */
  lemma {:induction false} LexLessTotal(a: string, b: string)
    ensures a == b || LexLess(a, b) || LexLess(b, a)
  {
    if a != [] && b != [] && a[0] == b[0] {
      LexLessTotal(a[1..], b[1..]);
      if a[1..] == b[1..] {
        assert a == [a[0]] + a[1..] && b == [b[0]] + b[1..];
      }
    }
  }

  /** Splitting `a + "\n" + b` yields `a` followed by the lines of `b`. */
  lemma SplitLinesCons(a: string, b: string)
    requires '\n' !in a
    ensures SplitLines(a + "\n" + b) == [a] + SplitLines(b)
  {
    var s := a + "\n" + b;
    assert s[..|a|] == a;
    assert |a| < |s| && s[|a|] == '\n';
    assert IndexOf(s, '\n') == |a|;
    assert s[|a| + 1..] == b;
  }

  /** A line without a newline is its own single line. */
  lemma SplitLinesSingle(a: string)
    requires a != [] && '\n' !in a
    ensures SplitLines(a) == [a]
  {
    assert IndexOf(a, '\n') == |a|;
  }

  /** A join of several parts: the first part, the separator, then the join of the rest. */
  lemma JoinCons(x: string, parts: seq<string>, sep: string)
    requires parts != []
    ensures Join([x] + parts, sep) == x + sep + Join(parts, sep)
  {
    assert ([x] + parts)[1..] == parts;
  }

  lemma SplitAt(s: string, i: nat)
    requires i < |s|
    ensures s == s[..i] + [s[i]] + s[i + 1..]
  {
  }

  /** `"\n".join(s.splitlines())` gives back `s` unless `s` ends in a newline. */
  lemma {:induction false} JoinSplitLines(s: string)
    requires s == [] || s[|s| - 1] != '\n'
    ensures Join(SplitLines(s), "\n") == s
    decreases |s|
  {
    if s != [] {
      var i := IndexOf(s, '\n');
      if i < |s| {
        var rest := s[i + 1..];
        assert rest != [];
        assert rest[|rest| - 1] == s[|s| - 1];
        JoinSplitLines(rest);
        assert SplitLines(s) == [s[..i]] + SplitLines(rest);
        var lines := SplitLines(rest);
        assert lines != [];
        JoinCons(s[..i], lines, "\n");
        SplitAt(s, i);
      }
    }
  }

  /** Stripping a string twice changes nothing the second time. */
  lemma StripIdempotent(s: string)
    ensures Strip(Strip(s)) == Strip(s)
  {
    var r := Strip(s);
    if r != [] {
      assert RStrip(r) == r;
    }
  }

  /** Trailing whitespace is stripped from the end only: text before a non-blank tail stays. */
  lemma {:induction false} RStripConcat(x: string, y: string)
    ensures !AllSpace(y) ==> RStrip(x + y) == x + RStrip(y)
    ensures AllSpace(y) ==> RStrip(x + y) == RStrip(x)
    decreases |y|
  {
    if y == [] {
      assert x + y == x;
    } else {
      var init := y[..|y| - 1];
      assert (x + y)[..|x + y| - 1] == x + init;
      assert (x + y)[|x + y| - 1] == y[|y| - 1];
      RStripConcat(x, init);
      AllSpaceSplit(y, |y| - 1);
      assert y[|y| - 1..] == [y[|y| - 1]];
    }
  }

  /** Stripping a line, a newline and more text: the line stays, and the newline too unless the rest is blank. */
  lemma RStripAfterLine(h: string, d: string)
    requires h == [] || !IsSpace(h[|h| - 1])
    ensures AllSpace(d) ==> RStrip(h + "\n" + d) == h
    ensures !AllSpace(d) ==> RStrip(h + "\n" + d) == h + "\n" + RStrip(d)
  {
    RStripConcat(h + "\n", d);
    assert AllSpace("\n") by { assert IsSpace("\n"[0]); }
    RStripConcat(h, "\n");
    RStripFromNonSpace(h);
  }

  /** Leading whitespace is dropped by `Strip`. */
  lemma StripLeadingSpace(c: char, s: string)
    requires IsSpace(c)
    ensures Strip([c] + s) == Strip(s)
  {
    assert ([c] + s)[1..] == s;
  }

  /** A string that starts with a non-space character is only stripped at its end. */
  lemma StripFromNonSpace(s: string)
    requires s != [] && !IsSpace(s[0])
    ensures Strip(s) == RStrip(s)
    ensures Strip(s) != [] && Strip(s)[0] == s[0]
  {
    assert !AllSpace(s) by { assert !IsSpace(s[0]); }
  }

  /** A string that ends with a non-space character is not changed by `RStrip`. */
  lemma RStripFromNonSpace(s: string)
    requires s == [] || !IsSpace(s[|s| - 1])
    ensures RStrip(s) == s
  {
  }

  /** `RStrip` leaves nothing exactly of whitespace alone. */
  lemma RStripEmpty(s: string)
    ensures RStrip(s) == [] <==> AllSpace(s)
  {
    RStripConcat([], s);
    assert [] + s == s;
    assert s[0..] == s;
  }

  /** Text with a non-space character in its first part has one in the whole. */
  lemma ConcatNotAllSpace(parts: seq<string>)
    requires parts != [] && !AllSpace(parts[0])
    ensures !AllSpace(Concat(parts))
  {
    var k :| 0 <= k < |parts[0]| && !IsSpace(parts[0][k]);
    assert Concat(parts)[k] == parts[0][k];
  }

  lemma SplitLinesJoinStep(ls: seq<string>, r: string)
    requires |ls| > 1 && '\n' !in ls[0]
    ensures SplitLines(Join(ls, "\n") + "\n" + r) == [ls[0]] + SplitLines(Join(ls[1..], "\n") + "\n" + r)
  {
    var rest := Join(ls[1..], "\n") + "\n" + r;
    assert Join(ls, "\n") + "\n" + r == ls[0] + "\n" + rest;
    SplitLinesCons(ls[0], rest);
  }

  /** Splitting lines rejoined with newlines gives back the first line first. */
  lemma JoinFirstLine(ls: seq<string>)
    requires ls != [] && ls[0] != [] && '\n' !in ls[0]
    ensures Join(ls, "\n") != [] && SplitLines(Join(ls, "\n"))[0] == ls[0]
  {
    if |ls| == 1 {
      SplitLinesSingle(ls[0]);
    } else {
      SplitLinesCons(ls[0], Join(ls[1..], "\n"));
    }
  }

  /** Splitting lines joined by newlines and followed by more text gives the lines back first. */
  lemma {:induction false} SplitLinesJoin(ls: seq<string>, r: string)
    requires ls != [] && forall k :: 0 <= k < |ls| ==> '\n' !in ls[k]
    ensures SplitLines(Join(ls, "\n") + "\n" + r) == ls + SplitLines(r)
  {
    if |ls| == 1 {
      assert Join(ls, "\n") == ls[0];
      SplitLinesCons(ls[0], r);
      assert ls == [ls[0]];
    } else {
      var head, tail := [ls[0]], ls[1..];
      var lr := SplitLines(r);
      SplitLinesJoin(tail, r);
      SplitLinesJoinStep(ls, r);
      assert head + (tail + lr) == (head + tail) + lr;
      assert ls == head + tail;
    }
  }
}
