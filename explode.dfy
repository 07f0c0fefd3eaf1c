/**
 * explode.py: splitting one instructions file (a list of lines, each as
 * `readlines()` gives it) into the general preamble and one fragment per
 * `## ` section, and composing the text of the files written for them.
 *
 * Each routine that loops in the source is a method proved equal to a
 * specification function; the contracts of the specification functions
 * say what the routine promises.
 */
module Explode {
  import opened Text

  /** Index of the first section header at or after `from`, or `|lines|`. */
  function HeaderFrom(lines: seq<string>, from: nat): (j: nat)
    requires from <= |lines|
    ensures from <= j <= |lines|
    ensures forall k :: from <= k < j ==> !IsSectionHeader(lines[k])
    ensures j < |lines| ==> IsSectionHeader(lines[j])
    decreases |lines| - from
  {
    if from == |lines| || IsSectionHeader(lines[from]) then from else HeaderFrom(lines, from + 1)
  }

  // ---------------------------------------------------------------------
  // extract_general

  /** The preamble: every line before the first section header. */
  function General(lines: seq<string>): (g: seq<string>)
    ensures g <= lines
    ensures forall k :: 0 <= k < |g| ==> !IsSectionHeader(g[k])
    ensures |g| < |lines| ==> IsSectionHeader(lines[|g|])
  {
    if lines == [] || IsSectionHeader(lines[0]) then [] else [lines[0]] + General(lines[1..])
  }

  /** A prefix that stops exactly at the first header is the preamble. */
  lemma GeneralUnique(lines: seq<string>, g: seq<string>)
    requires g <= lines
    requires forall k :: 0 <= k < |g| ==> !IsSectionHeader(g[k])
    requires |g| < |lines| ==> IsSectionHeader(lines[|g|])
    ensures g == General(lines)
  {
  }

  method ExtractGeneral(lines: seq<string>) returns (general: seq<string>)
    ensures general == General(lines)
  {
    general := [];
    var i := 0;
    while i < |lines|
      invariant i <= |lines|
      invariant general == lines[..i]
      invariant forall k :: 0 <= k < i ==> !IsSectionHeader(lines[k])
    {
      if IsSectionHeader(lines[i]) {
        break;
      }
      general := general + [lines[i]];
      i := i + 1;
    }
    GeneralUnique(lines, general);
  }

  // ---------------------------------------------------------------------
  // extract_section

  /** `line.strip().lower() == header.lower()` */
  predicate MatchesHeader(line: string, header: string) {
    Lower(Strip(line)) == Lower(header)
  }

  predicate IsFirstMatch(lines: seq<string>, header: string, i: int) {
    0 <= i < |lines| && MatchesHeader(lines[i], header)
    && forall k :: 0 <= k < i ==> !MatchesHeader(lines[k], header)
  }

  /** Index of the first line matching `header`, or `|lines|`. */
  function FirstMatch(lines: seq<string>, header: string): (i: nat)
    ensures i <= |lines|
    ensures forall k :: 0 <= k < i ==> !MatchesHeader(lines[k], header)
    ensures i < |lines| ==> MatchesHeader(lines[i], header)
  {
    if lines == [] then 0
    else if MatchesHeader(lines[0], header) then 0
    else 1 + FirstMatch(lines[1..], header)
  }

  /**
   * The section under `header`: from the first matching line up to, not
   * including, the next `## ` line (or to the end).
   */
  function Section(lines: seq<string>, header: string): (s: seq<string>)
    ensures s == [] <==> forall k :: 0 <= k < |lines| ==> !MatchesHeader(lines[k], header)
    ensures s != [] ==> exists i :: SectionAt(lines, header, i, s)
    ensures forall k :: 1 <= k < |s| ==> !IsSectionHeader(s[k])
  {
    var i := FirstMatch(lines, header);
    if i == |lines| then []
    else
      var j := HeaderFrom(lines, i + 1);
      SectionAtRun(lines, header, i, j);
      lines[i..j]
  }

  /** The run from the first match `i` to the next header `j` after it is the section there. */
  lemma SectionAtRun(lines: seq<string>, header: string, i: nat, j: nat)
    requires IsFirstMatch(lines, header, i) && i < j <= |lines|
    requires forall k :: i < k < j ==> !IsSectionHeader(lines[k])
    requires j < |lines| ==> IsSectionHeader(lines[j])
    ensures SectionAt(lines, header, i, lines[i..j])
    ensures forall k :: 1 <= k < j - i ==> !IsSectionHeader(lines[i..j][k])
  {
    var s := lines[i..j];
    assert i + |s| == j;
    forall k | 1 <= k < j - i ensures !IsSectionHeader(s[k]) {
      assert s[k] == lines[i + k];
    }
  }

  /**
   * `s` is the run of lines starting at the first line `i` that matches
   * `header` and ending just before the next `## ` line or at the end.
   */
  predicate SectionAt(lines: seq<string>, header: string, i: int, s: seq<string>) {
    IsFirstMatch(lines, header, i) && i + |s| <= |lines| && s == lines[i..i + |s|]
    && (i + |s| < |lines| ==> IsSectionHeader(lines[i + |s|]))
  }

  method ExtractSection(lines: seq<string>, header: string) returns (content: seq<string>)
    ensures content == Section(lines, header)
  {
    content := [];
    var inSection := false;
    ghost var start := 0;
    var i := 0;
    while i < |lines|
      invariant i <= |lines|
      invariant !inSection ==> content == [] && forall k :: 0 <= k < i ==> !MatchesHeader(lines[k], header)
      invariant inSection ==> IsFirstMatch(lines, header, start) && start < i && content == lines[start..i]
      invariant inSection ==> forall k :: start < k < i ==> !IsSectionHeader(lines[k])
    {
      var line := lines[i];
      if inSection {
        if IsSectionHeader(line) {
          break;
        }
        assert lines[start..i + 1] == lines[start..i] + [line];
        content := content + [line];
      } else if MatchesHeader(line, header) {
        inSection := true;
        start := i;
        content := content + [line];
      }
      i := i + 1;
    }
    if inSection {
      SectionFrom(lines, header, start, i);
    }
  }

  lemma {:induction false} FirstMatchIs(lines: seq<string>, header: string, i: nat)
    requires IsFirstMatch(lines, header, i)
    ensures FirstMatch(lines, header) == i
  {
    if i > 0 {
      assert IsFirstMatch(lines[1..], header, i - 1) by {
        forall k | 0 <= k < i - 1 ensures !MatchesHeader(lines[1..][k], header) {
          assert lines[1..][k] == lines[k + 1];
        }
      }
      FirstMatchIs(lines[1..], header, i - 1);
    }
  }

  lemma {:induction false} HeaderFromIs(lines: seq<string>, from: nat, j: nat)
    requires from <= j <= |lines|
    requires forall k :: from <= k < j ==> !IsSectionHeader(lines[k])
    requires j < |lines| ==> IsSectionHeader(lines[j])
    ensures HeaderFrom(lines, from) == j
    decreases j - from
  {
    if from < j {
      HeaderFromIs(lines, from + 1, j);
    }
  }

  /** The section is the run from the first match up to the next header after it. */
  lemma SectionFrom(lines: seq<string>, header: string, start: nat, e: nat)
    requires IsFirstMatch(lines, header, start) && start < e <= |lines|
    requires forall k :: start < k < e ==> !IsSectionHeader(lines[k])
    requires e < |lines| ==> IsSectionHeader(lines[e])
    ensures Section(lines, header) == lines[start..e]
  {
    FirstMatchIs(lines, header, start);
    HeaderFromIs(lines, start + 1, e);
  }

  // ---------------------------------------------------------------------
  // trim_content

  /** Index of the first non-blank line, or `|lines|`. */
  function FirstNonBlank(lines: seq<string>): (i: nat)
    ensures i <= |lines|
    ensures forall k :: 0 <= k < i ==> IsBlank(lines[k])
    ensures i < |lines| ==> !IsBlank(lines[i])
  {
    if lines == [] || !IsBlank(lines[0]) then 0 else 1 + FirstNonBlank(lines[1..])
  }

  /** One past the last non-blank line, or 0. */
  function EndNonBlank(lines: seq<string>): (e: nat)
    ensures e <= |lines|
    ensures forall k :: e <= k < |lines| ==> IsBlank(lines[k])
    ensures e > 0 ==> !IsBlank(lines[e - 1])
  {
    if lines == [] || !IsBlank(lines[|lines| - 1]) then |lines| else EndNonBlank(lines[..|lines| - 1])
  }

  predicate AllBlank(lines: seq<string>) {
    forall k :: 0 <= k < |lines| ==> IsBlank(lines[k])
  }

  /** The lines with the blank lines at either end removed. */
  function Trimmed(lines: seq<string>): (r: seq<string>)
    ensures r == [] <==> AllBlank(lines)
    ensures r != [] ==> !IsBlank(r[0]) && !IsBlank(r[|r| - 1])
  {
    var i := FirstNonBlank(lines);
    if i == |lines| then [] else lines[i..EndNonBlank(lines)]
  }

  /** `r` sits at index `i` of `lines`, with only blank lines before and after it. */
  predicate SliceWithBlankAround(lines: seq<string>, r: seq<string>, i: int) {
    0 <= i <= |lines| - |r| && r == lines[i..i + |r|] && AllBlank(lines[..i]) && AllBlank(lines[i + |r|..])
  }

  /** Trimming keeps a contiguous run of the lines and drops only blank lines at either end. */
  lemma TrimmedIsSlice(lines: seq<string>)
    ensures exists i :: SliceWithBlankAround(lines, Trimmed(lines), i)
  {
    var i := FirstNonBlank(lines);
    if i == |lines| {
      assert lines[0..0] == [] && lines[..0] == [] && lines[0..] == lines;
      assert Trimmed(lines) == [];
      assert SliceWithBlankAround(lines, [], 0);
    } else {
      var e := EndNonBlank(lines);
      assert i < e;
      assert Trimmed(lines) == lines[i..e];
      assert AllBlank(lines[..i]) by {
        assert forall k :: 0 <= k < i ==> lines[..i][k] == lines[k];
      }
      assert AllBlank(lines[e..]) by {
        assert forall k :: 0 <= k < |lines| - e ==> lines[e..][k] == lines[e + k];
      }
      assert i + |lines[i..e]| == e;
      assert SliceWithBlankAround(lines, lines[i..e], i);
    }
  }

  method TrimContent(lines: seq<string>) returns (r: seq<string>)
    ensures r == Trimmed(lines)
  {
    var start := 0;
    var found := false;
    var i := 0;
    while i < |lines|
      invariant i <= |lines|
      invariant forall k :: 0 <= k < i ==> IsBlank(lines[k])
    {
      if !IsBlank(lines[i]) {
        start := i;
        found := true;
        break;
      }
      i := i + 1;
    }
    if !found {
      return [];
    }
    var end := |lines|;
    var j := |lines| - 1;
    while j >= 0
      invariant start <= j < |lines|
      invariant forall k :: j < k < |lines| ==> IsBlank(lines[k])
    {
      if !IsBlank(lines[j]) {
        end := j + 1;
        break;
      }
      j := j - 1;
    }
    assert FirstNonBlank(lines) == start;
    assert EndNonBlank(lines) == end;
    r := lines[start..end];
  }

  /** Trimming is idempotent. */
  lemma TrimmedIdempotent(lines: seq<string>)
    ensures Trimmed(Trimmed(lines)) == Trimmed(lines)
  {
    var r := Trimmed(lines);
    if r != [] {
      assert FirstNonBlank(r) == 0;
      assert EndNonBlank(r) == |r|;
      assert r[0..|r|] == r;
    }
  }

  /** Content with non-blank ends, surrounded only by blank lines, is what trimming yields. */
  lemma TrimmedUnique(pre: seq<string>, r: seq<string>, post: seq<string>)
    requires AllBlank(pre) && AllBlank(post)
    requires r != [] && !IsBlank(r[0]) && !IsBlank(r[|r| - 1])
    ensures Trimmed(pre + r + post) == r
  {
    var s := pre + r + post;
    assert s[|pre|] == r[0];
    assert s[|pre| + |r| - 1] == r[|r| - 1];
    assert forall k :: 0 <= k < |pre| ==> s[k] == pre[k];
    assert forall k :: |pre| + |r| <= k < |s| ==> s[k] == post[k - |pre| - |r|];
    assert FirstNonBlank(s) == |pre|;
    assert EndNonBlank(s) == |pre| + |r|;
    assert s[|pre|..|pre| + |r|] == r;
  }

  lemma AllBlankConcat3(a: seq<string>, b: seq<string>, c: seq<string>)
    requires AllBlank(a) && AllBlank(b) && AllBlank(c)
    ensures Trimmed(a + b + c) == []
  {
    AllBlankConcat(a, b);
    AllBlankConcat(a + b, c);
  }

  lemma AllBlankConcat(a: seq<string>, b: seq<string>)
    requires AllBlank(a) && AllBlank(b)
    ensures AllBlank(a + b)
  {
    assert forall k :: |a| <= k < |a| + |b| ==> (a + b)[k] == b[k - |a|];
  }

  /** Blank lines around some content do not survive trimming. */
  lemma TrimmedIgnoresBlankEdges(pre: seq<string>, mid: seq<string>, post: seq<string>)
    requires AllBlank(pre) && AllBlank(post)
    ensures Trimmed(pre + mid + post) == Trimmed(mid)
  {
    var t := Trimmed(mid);
    if t == [] {
      AllBlankConcat3(pre, mid, post);
    } else {
      TrimmedIsSlice(mid);
      var i :| SliceWithBlankAround(mid, t, i);
      SliceSplit(mid, i, i + |t|);
      TrimmedRegroup(pre, mid[..i], t, mid[i + |t|..], post);
    }
  }

  lemma TrimmedRegroup(pre: seq<string>, a: seq<string>, t: seq<string>, b: seq<string>, post: seq<string>)
    requires AllBlank(pre) && AllBlank(a) && AllBlank(b) && AllBlank(post)
    requires t != [] && !IsBlank(t[0]) && !IsBlank(t[|t| - 1])
    ensures Trimmed(pre + (a + t + b) + post) == t
  {
    AllBlankConcat(pre, a);
    AllBlankConcat(b, post);
    Regroup(pre, a, t, b, post);
    TrimmedUnique(pre + a, t, b + post);
  }

  // ---------------------------------------------------------------------
  // replace_header_with_proper_casing

  /** The header line written in place of the first one: `## <proper>` and a newline. */
  function ProperHeaderLine(proper: string): string {
    "## " + proper + "\n"
  }

  predicate IsFirstHeader(lines: seq<string>, i: int) {
    0 <= i < |lines| && IsSectionHeader(lines[i]) && forall k :: 0 <= k < i ==> !IsSectionHeader(lines[k])
  }

  /** The lines with their first `## ` line replaced by the properly cased header. */
  function WithProperHeader(lines: seq<string>, proper: string): (r: seq<string>)
    ensures |r| == |lines|
    ensures (forall k :: 0 <= k < |lines| ==> !IsSectionHeader(lines[k])) ==> r == lines
    ensures forall i :: IsFirstHeader(lines, i) ==> r == lines[i := ProperHeaderLine(proper)]
  {
    var i := HeaderFrom(lines, 0);
    if i == |lines| then lines else lines[i := ProperHeaderLine(proper)]
  }

  /** Updates `a` in place, as the source does with the list it is given. */
  method ReplaceHeaderWithProperCasing(a: array<string>, proper: string)
    modifies a
    ensures a[..] == WithProperHeader(old(a[..]), proper)
  {
    if a.Length == 0 {
      return;
    }
    var i := 0;
    while i < a.Length
      invariant i <= a.Length
      invariant a[..] == old(a[..])
      invariant forall k :: 0 <= k < i ==> !IsSectionHeader(a[k])
    {
      if IsSectionHeader(a[i]) {
        assert IsFirstHeader(old(a[..]), i);
        a[i] := ProperHeaderLine(proper);
        break;
      }
      i := i + 1;
    }
  }

  // ---------------------------------------------------------------------
  // extract_description_and_filter_content

  const DescriptionLabel: string := "Description:"

  /** A line that is neither blank nor a `#` heading once stripped. */
  predicate IsMeaningful(line: string) {
    Strip(line) != [] && !StartsWith(Strip(line), "#")
  }

  predicate IsFirstMeaningful(lines: seq<string>, i: int) {
    0 <= i < |lines| && IsMeaningful(lines[i]) && forall k :: 0 <= k < i ==> !IsMeaningful(lines[k])
  }

  /** Index of the first meaningful line, or `|lines|`. */
  function FirstMeaningful(lines: seq<string>): (i: nat)
    ensures i <= |lines|
    ensures forall k :: 0 <= k < i ==> !IsMeaningful(lines[k])
    ensures i < |lines| ==> IsMeaningful(lines[i])
  {
    if lines == [] || IsMeaningful(lines[0]) then 0 else 1 + FirstMeaningful(lines[1..])
  }

  /** The stripped text after `Description:` on a labelled line, and "" on any other line. */
  function LabelledDescription(line: string): (d: string)
    ensures d != [] ==> StartsWith(Strip(line), DescriptionLabel)
    ensures d == [] || (!IsSpace(d[0]) && !IsSpace(d[|d| - 1]))
  {
    var s := Strip(line);
    if StartsWith(s, DescriptionLabel) then Strip(s[|DescriptionLabel|..]) else ""
  }

  /**
   * The description derived from a stripped line that carries no label:
   * its first sentence with the full stop, or else its first 100
   * characters, marked with "..." when the line was longer.
   */
  function FallbackDescription(s: string): (d: string)
    ensures s != [] && !IsSpace(s[0]) ==> d != []
    ensures '.' in s ==> d != [] && d[|d| - 1] == '.' && '.' !in d[..|d| - 1] && |d| <= |s|
    ensures '.' in s ==> exists p :: 0 <= p < |s| && s[p] == '.' && '.' !in s[..p] && d == Strip(s[..p]) + "."
    ensures '.' !in s && |s| > 100 ==> |d| >= 3 && d[|d| - 3..] == "..." && d[..|d| - 3] == Strip(s[..100])
    ensures '.' !in s && |s| <= 100 ==> d == Strip(s)
    ensures '.' !in s ==> |d| <= 103
  {
    if '.' in s then
      var p := IndexOf(s, '.');
      var before := Strip(s[..p]);
      StripChars(s[..p], '.');
      assert (before + ".")[..|before|] == before;
      assert s[p] == '.' && '.' !in s[..p];
      before + "."
    else
      var n := if |s| < 100 then |s| else 100;
      PrefixFacts(s, n);
      var d := Strip(s[..n]) + (if |s| > 100 then "..." else "");
      assert |s| > 100 ==> d[..|d| - 3] == Strip(s[..n]);
      d
  }

  lemma PrefixFacts(s: string, n: nat)
    requires n <= |s|
    ensures s != [] && n > 0 && !IsSpace(s[0]) ==> !AllSpace(s[..n])
    ensures n == |s| ==> s[..n] == s
  {
    if s != [] && n > 0 { assert s[..n][0] == s[0]; }
  }

  /**
   * The description and the content written after it.  When the first
   * meaningful line of the trimmed content is `Description: <text>` with a
   * non-empty text, that text is the description and the line is removed;
   * otherwise the description comes from `FallbackDescription` (or is
   * `default` when there is no meaningful line) and the content is only trimmed.
   */
  function DescriptionAndContent(lines: seq<string>, default: string): (r: (string, seq<string>))
  {
    var t := Trimmed(lines);
    var m := FirstMeaningful(t);
    var labelled := if m < |t| then LabelledDescription(t[m]) else "";
    if labelled != [] then
      (labelled, Trimmed(t[..m] + t[m + 1..]))
    else
      var fallback := if m < |t| then FallbackDescription(Strip(t[m])) else "";
      (if fallback == [] then default else fallback, t)
  }

  method ExtractDescriptionAndFilterContent(lines: seq<string>, default: string)
    returns (description: string, filtered: seq<string>)
    ensures (description, filtered) == DescriptionAndContent(lines, default)
  {
    var trimmed := TrimContent(lines);
    description := "";
    var descriptionLine := -1;
    ghost var m := FirstMeaningful(trimmed);
    var i := 0;
    while i < |trimmed|
      invariant i <= |trimmed|
      invariant i <= m
      invariant description == "" && descriptionLine == -1
    {
      var stripped := Strip(trimmed[i]);
      if stripped != [] && !StartsWith(stripped, "#") {
        assert i == m;
        if StartsWith(stripped, DescriptionLabel) {
          description := Strip(stripped[|DescriptionLabel|..]);
          descriptionLine := i;
          break;
        } else {
          break;
        }
      }
      i := i + 1;
    }
    ghost var labelled := if m < |trimmed| then LabelledDescription(trimmed[m]) else "";
    assert description == labelled;
    assert descriptionLine == -1 || descriptionLine == m < |trimmed|;
    if description == "" || descriptionLine == -1 {
      assert labelled == "";
      var j := 0;
      while j < |trimmed|
        invariant j <= |trimmed|
        invariant j <= m
        invariant description == ""
      {
        var stripped := Strip(trimmed[j]);
        if stripped != [] && !StartsWith(stripped, "#") {
          assert j == m;
          description := FallbackDescription(stripped);
          break;
        }
        j := j + 1;
      }
      assert description == if m < |trimmed| then FallbackDescription(Strip(trimmed[m])) else "";
      if description == "" {
        description := default;
      }
      filtered := trimmed;
    } else {
      filtered := trimmed[..descriptionLine] + trimmed[descriptionLine + 1..];
      filtered := TrimContent(filtered);
    }
  }

  lemma FirstMeaningfulUnique(lines: seq<string>, i: int)
    requires IsFirstMeaningful(lines, i)
    ensures FirstMeaningful(lines) == i
  {
  }

  /**
   * A `Description: <text>` line with a non-empty text, as the first
   * meaningful line of the trimmed content, gives the description, and the
   * content is the trimmed content without that line, trimmed again.
   */
  lemma LabelledDescriptionTaken(lines: seq<string>, default: string, i: int)
    requires IsFirstMeaningful(Trimmed(lines), i)
    requires StartsWith(Strip(Trimmed(lines)[i]), DescriptionLabel)
    requires Strip(Strip(Trimmed(lines)[i])[|DescriptionLabel|..]) != []
    ensures var t := Trimmed(lines);
      DescriptionAndContent(lines, default) == (Strip(Strip(t[i])[|DescriptionLabel|..]), Trimmed(t[..i] + t[i + 1..]))
  {
    FirstMeaningfulUnique(Trimmed(lines), i);
  }

  /** Without a labelled first meaningful line the content is only trimmed. */
  lemma UnlabelledContentTrimmed(lines: seq<string>, default: string)
    requires forall i :: IsFirstMeaningful(Trimmed(lines), i) ==> LabelledDescription(Trimmed(lines)[i]) == []
    ensures DescriptionAndContent(lines, default).1 == Trimmed(lines)
  {
    var t := Trimmed(lines);
    var m := FirstMeaningful(t);
    if m < |t| {
      assert IsFirstMeaningful(t, m);
    }
  }

  /**
   * Without a labelled line, the first meaningful line gives the
   * description through `FallbackDescription`; it is never empty, so the
   * default is not used.
   */
  lemma FallbackDescriptionTaken(lines: seq<string>, default: string, i: int)
    requires IsFirstMeaningful(Trimmed(lines), i)
    requires LabelledDescription(Trimmed(lines)[i]) == []
    ensures DescriptionAndContent(lines, default).0 == FallbackDescription(Strip(Trimmed(lines)[i]))
    ensures DescriptionAndContent(lines, default).0 != []
  {
    FirstMeaningfulUnique(Trimmed(lines), i);
  }

  /** With no meaningful line at all, the description is the default and the content only trimmed. */
  lemma NoMeaningfulLineGivesDefault(lines: seq<string>, default: string)
    requires forall k :: 0 <= k < |Trimmed(lines)| ==> !IsMeaningful(Trimmed(lines)[k])
    ensures DescriptionAndContent(lines, default) == (default, Trimmed(lines))
  {
  }

  /** The content written after the description never starts or ends with a blank line. */
  lemma FilteredContentTrimmed(lines: seq<string>, default: string)
    ensures Trimmed(DescriptionAndContent(lines, default).1) == DescriptionAndContent(lines, default).1
  {
    var t := Trimmed(lines);
    TrimmedIdempotent(lines);
    var m := FirstMeaningful(t);
    if m < |t| && LabelledDescription(t[m]) != [] {
      TrimmedIdempotent(t[..m] + t[m + 1..]);
    }
  }

  // ---------------------------------------------------------------------
  // Frontmatter and the text of the files explode.py writes

  /** generate_cursor_frontmatter: five lines, each ended by a newline. */
  function CursorFrontmatter(glob: string): string {
    "---" + "\n" + "description:" + "\n" + "globs: " + glob + "\n" + "alwaysApply: false" + "\n" + "---" + "\n"
  }

  /** generate_copilot_frontmatter: three lines, each ended by a newline. */
  function CopilotFrontmatter(glob: string): string {
    "---" + "\n" + "applyTo: \"" + glob + "\"" + "\n" + "---" + "\n"
  }

  /** The frontmatter main() hands to write_rule for general.mdc: a newline, then four lines. */
  const GeneralFrontmatter: string := "\n" + "---" + "\n" + "description:" + "\n" + "alwaysApply: true" + "\n" + "---" + "\n"

  /** What write_rule writes: the stripped frontmatter, a newline, then the trimmed lines. */
  function RuleText(headerYaml: string, lines: seq<string>): string {
    Strip(headerYaml) + "\n" + Concat(Trimmed(lines))
  }

  /** What write_cursor_prompt writes: a description block only when there is a description. */
  function CursorPromptText(lines: seq<string>): string {
    var (description, content) := DescriptionAndContent(lines, "");
    if description != [] then "---\ndescription: " + description + "\n---\n" + Concat(content)
    else Concat(content)
  }

  /** What write_github_prompt writes: always an agent-mode frontmatter. */
  function GithubPromptText(lines: seq<string>): string {
    var (description, content) := DescriptionAndContent(lines, "");
    "---\nmode: 'agent'\ndescription: '" + description + "'\n---\n" + Concat(content)
  }

  /** There is a description exactly when the trimmed content has a meaningful line. */
  lemma DescriptionIffMeaningful(lines: seq<string>)
    ensures DescriptionAndContent(lines, "").0 != [] <==> FirstMeaningful(Trimmed(lines)) < |Trimmed(lines)|
  {
    var t := Trimmed(lines);
    var m := FirstMeaningful(t);
    if m < |t| {
      assert IsFirstMeaningful(t, m);
      if LabelledDescription(t[m]) == [] {
        FallbackDescriptionTaken(lines, "", m);
      }
    }
  }

  /** A line that is not blank and not meaningful starts with whitespace or `#`. */
  lemma HeadingLineStart(line: string)
    requires !IsBlank(line) && !IsMeaningful(line)
    ensures line[0] == '#' || IsSpace(line[0])
  {
    var r := Strip(line);
    StripIsSlice(line);
    var i :| SliceWithSpaceAround(line, r, i);
    if i > 0 { assert line[..i][0] == line[0]; } else { assert line[0] == r[0]; }
  }

  /** The description block of a cursor prompt, followed by its body, or the body alone. */
  lemma PromptBlockShape(d: string, body: string)
    requires d == [] ==> body == [] || body[0] != '-'
    ensures var text := if d != [] then "---\ndescription: " + d + "\n---\n" + body else body;
      (d != [] ==> StartsWith(text, "---\ndescription: " + d + "\n---\n"))
      && (StartsWith(text, "---\n") <==> d != [])
      && EndsWith(text, body)
  {
    var block := "---\ndescription: " + d + "\n---\n";
    if d != [] {
      var text := block + body;
      assert text[..|block|] == block;
      assert text[..4] == block[..4];
      assert text[|text| - |body|..] == body;
    } else {
      assert body[|body| - |body|..] == body;
    }
  }

  /**
   * write_cursor_prompt writes frontmatter exactly when there is a
   * description: the file starts with `---` and the description block
   * when the description is non-empty, and otherwise with the content,
   * whose first line is a `#` heading. Either way the filtered content
   * comes last.
   */
  lemma CursorPromptShape(lines: seq<string>)
    ensures var r := DescriptionAndContent(lines, "");
      var text := CursorPromptText(lines);
      (r.0 != [] ==> StartsWith(text, "---\ndescription: " + r.0 + "\n---\n"))
      && (StartsWith(text, "---\n") <==> r.0 != [])
      && EndsWith(text, Concat(r.1))
  {
    var r := DescriptionAndContent(lines, "");
    var body := Concat(r.1);
    if r.0 == [] {
      var t := Trimmed(lines);
      DescriptionIffMeaningful(lines);
      assert r.1 == t;
      if t != [] {
        assert !IsMeaningful(t[0]);
        HeadingLineStart(t[0]);
        assert body[0] == t[0][0];
      }
    }
    PromptBlockShape(r.0, body);
  }

  /** `for line in lines: f.write(line)`, writing after `out0`. */
  method WriteLines(out0: string, lines: seq<string>) returns (out: string)
    ensures out == out0 + Concat(lines)
  {
    out := out0;
    for i := 0 to |lines|
      invariant out == out0 + Concat(lines[..i])
    {
      ConcatSnoc(lines[..i], lines[i]);
      assert lines[..i + 1] == lines[..i] + [lines[i]];
      out := out + lines[i];
    }
    assert lines[..|lines|] == lines;
  }

  /** write_rule, with the file's text returned. */
  method WriteRule(headerYaml: string, contentLines: seq<string>) returns (text: string)
    ensures text == RuleText(headerYaml, contentLines)
  {
    var trimmedContent := TrimContent(contentLines);
    text := WriteLines(Strip(headerYaml) + "\n", trimmedContent);
  }

  /** write_cursor_prompt, with the file's text returned. */
  method WriteCursorPrompt(contentLines: seq<string>) returns (text: string)
    ensures text == CursorPromptText(contentLines)
  {
    var description, filteredContent := ExtractDescriptionAndFilterContent(contentLines, "");
    text := "";
    if description != [] {
      text := "---\ndescription: " + description + "\n---\n";
    }
    text := WriteLines(text, filteredContent);
  }

  /** write_github_prompt, with the file's text returned. */
  method WriteGithubPrompt(contentLines: seq<string>) returns (text: string)
    ensures text == GithubPromptText(contentLines)
  {
    var description, filteredContent := ExtractDescriptionAndFilterContent(contentLines, "");
    var frontmatter := "---\nmode: 'agent'\ndescription: '" + description + "'\n---\n";
    text := WriteLines(frontmatter, filteredContent);
  }

  /** Blank lines around the content do not change what write_rule writes. */
  lemma RuleTextIgnoresBlankEdges(headerYaml: string, pre: seq<string>, lines: seq<string>, post: seq<string>)
    requires AllBlank(pre) && AllBlank(post)
    ensures RuleText(headerYaml, pre + lines + post) == RuleText(headerYaml, lines)
  {
    TrimmedIgnoresBlankEdges(pre, lines, post);
  }

  /** The rule text is the stripped frontmatter line, then the content from its first to its last non-blank line. */
  lemma RuleTextContent(headerYaml: string, lines: seq<string>)
    ensures exists i :: (SliceWithBlankAround(lines, Trimmed(lines), i)
      && RuleText(headerYaml, lines) == Strip(headerYaml) + "\n" + Concat(lines[i..i + |Trimmed(lines)|]))
  {
    TrimmedIsSlice(lines);
  }
}
