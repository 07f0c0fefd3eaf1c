/**
 * What implode.py reads back from the files explode.py writes: the
 * frontmatter of a rule file is recognised and dropped, and a section's
 * header line with the blank lines after it is dropped, so the bundled
 * body is the section's text after its header.
 */
module RoundTrip {
  import opened Text
  import opened Explode
  import opened Implode

  /** Stripping frontmatter text that is `a` plus a newline gives `a`. */
  lemma FrontmatterStrip(a: string)
    requires a != [] && !IsSpace(a[0]) && !IsSpace(a[|a| - 1])
    ensures Strip(a + "\n") == a
  {
    var s := a + "\n";
    assert s[0] == a[0];
    StripFromNonSpace(s);
    RStripAfterLine(a, "");
    assert a + "\n" + "" == s;
  }

  /** The same with a newline before the frontmatter too. */
  lemma FrontmatterStripNewline(a: string)
    requires a != [] && !IsSpace(a[0]) && !IsSpace(a[|a| - 1])
    ensures Strip("\n" + a + "\n") == a
  {
    FrontmatterStrip(a);
    StripLeadingSpace('\n', a + "\n");
    assert "\n" + a + "\n" == ['\n'] + (a + "\n");
  }

  /**
   * The text write_rule writes, as implode strips it: the frontmatter, a
   * newline, and the trimmed content without trailing whitespace.
   */
  lemma StrippedRuleText(headerYaml: string, lines: seq<string>)
    requires Strip(headerYaml) != [] && !AllBlank(lines)
    ensures var c := Concat(Trimmed(lines));
      && Strip(RuleText(headerYaml, lines)) == Strip(headerYaml) + "\n" + RStrip(c)
      && RStrip(c) != [] && !IsSpace(RStrip(c)[|RStrip(c)| - 1])
  {
    var a, c := Strip(headerYaml), Concat(Trimmed(lines));
    ConcatNotAllSpace(Trimmed(lines));
    StripFromNonSpace(a + "\n" + c);
    RStripConcat(a + "\n", c);
    RStripEmpty(c);
  }

  /**
   * Frontmatter made of the lines `fm`, fences first and last and none in
   * between, is removed as a whole: what follows it is what is left.
   */
  lemma WithoutFrontmatterOf(fm: seq<string>, r: string)
    requires FenceLines(fm)
    requires r != [] && r[|r| - 1] != '\n'
    ensures WithoutFrontmatter(Join(fm, "\n") + "\n" + r) == LStripChar(r, '\n')
  {
    SplitLinesJoin(fm, r);
    var lines := SplitLines(Join(fm, "\n") + "\n" + r);
    assert lines == fm + SplitLines(r);
    FenceLine();
    forall k | 1 <= k < |fm| - 1 ensures !IsFence(lines[k]) {
      NotFence(fm[k]);
    }
    NextFenceIs(lines, 1, |fm| - 1);
    assert lines[|fm|..] == SplitLines(r);
    JoinSplitLines(r);
  }

  lemma FenceLine()
    ensures IsFence("---")
  {
    StripFromNonSpace("---");
    RStripFromNonSpace("---");
  }

  /** A line that starts with a character other than `-` or whitespace is not a fence. */
  lemma NotFence(line: string)
    requires line != [] && !IsSpace(line[0]) && line[0] != '-'
    ensures !IsFence(line)
  {
    StripFromNonSpace(line);
  }

  /** The lines of generate_cursor_frontmatter's text. */
  function CursorFenceLines(glob: string): seq<string> {
    ["---", "description:", "globs: " + glob, "alwaysApply: false", "---"]
  }

  /** The lines of generate_copilot_frontmatter's text. */
  function CopilotFenceLines(glob: string): seq<string> {
    ["---", "applyTo: \"" + glob + "\"", "---"]
  }

  /** The lines of the frontmatter of general.mdc. */
  function GeneralFenceLines(): seq<string> {
    ["---", "description:", "alwaysApply: true", "---"]
  }

  /**
   * Frontmatter lines: `---` first and last, and in between only lines that
   * start with a character other than `-` or whitespace, so that none of
   * them is a fence; none holds a newline.
   */
  predicate FenceLines(fm: seq<string>) {
    && |fm| >= 2 && fm[0] == "---" && fm[|fm| - 1] == "---"
    && (forall k :: 0 < k < |fm| - 1 ==> fm[k] != [] && !IsSpace(fm[k][0]) && fm[k][0] != '-')
    && (forall k :: 0 <= k < |fm| ==> '\n' !in fm[k])
  }

  /** Frontmatter text made of fence lines is left alone by strip(), but for its edge newlines. */
  lemma FenceLinesStrip(fm: seq<string>)
    requires FenceLines(fm)
    ensures Strip(Join(fm, "\n") + "\n") == Join(fm, "\n")
    ensures Strip("\n" + Join(fm, "\n") + "\n") == Join(fm, "\n")
  {
    var a := Join(fm, "\n");
    JoinEnds(fm, "\n");
    assert a[0] == '-' by { assert fm[0][0] == '-'; }
    assert a[|a| - 1] == '-' by { assert a[|a| - 3..][2] == '-'; }
    FrontmatterStrip(a);
    FrontmatterStripNewline(a);
  }

  lemma CursorFenceLinesAre(glob: string)
    requires '\n' !in glob
    ensures FenceLines(CursorFenceLines(glob))
  {
    var fm := CursorFenceLines(glob);
    assert fm[1][0] == 'd' && fm[2][0] == 'g' && fm[3][0] == 'a';
  }

  lemma CursorFrontmatterLines(glob: string)
    ensures CursorFrontmatter(glob) == Join(CursorFenceLines(glob), "\n") + "\n"
  {
    var fm := CursorFenceLines(glob);
    assert Join(fm[4..], "\n") == "---";
    assert Join(fm[3..], "\n") == "alwaysApply: false" + "\n" + "---";
    assert Join(fm[2..], "\n") == "globs: " + glob + "\n" + ("alwaysApply: false" + "\n" + "---");
    assert Join(fm[1..], "\n") == "description:" + "\n" + ("globs: " + glob + "\n" + ("alwaysApply: false" + "\n" + "---"));
  }

  lemma CopilotFenceLinesAre(glob: string)
    requires '\n' !in glob
    ensures FenceLines(CopilotFenceLines(glob))
  {
    var fm := CopilotFenceLines(glob);
    assert fm[1][0] == 'a';
  }

  lemma CopilotFrontmatterLines(glob: string)
    ensures CopilotFrontmatter(glob) == Join(CopilotFenceLines(glob), "\n") + "\n"
  {
    var fm := CopilotFenceLines(glob);
    assert Join(fm[2..], "\n") == "---";
    assert Join(fm[1..], "\n") == "applyTo: \"" + glob + "\"" + "\n" + "---";
  }

  lemma GeneralFenceLinesAre()
    ensures FenceLines(GeneralFenceLines())
  {
    var fm := GeneralFenceLines();
    assert fm[1][0] == 'd' && fm[2][0] == 'a';
  }

  lemma GeneralFrontmatterLines()
    ensures GeneralFrontmatter == "\n" + Join(GeneralFenceLines(), "\n") + "\n"
  {
    var fm := GeneralFenceLines();
    assert Join(fm[3..], "\n") == "---";
    assert Join(fm[2..], "\n") == "alwaysApply: true" + "\n" + "---";
    assert Join(fm[1..], "\n") == "description:" + "\n" + ("alwaysApply: true" + "\n" + "---");
  }

  /** Frontmatter given by fence lines is dropped from the rule text as implode reads it. */
  lemma RuleFrontmatterDropped(headerYaml: string, fm: seq<string>, lines: seq<string>)
    requires FenceLines(fm) && Strip(headerYaml) == Join(fm, "\n")
    requires !AllBlank(lines)
    ensures WithoutFrontmatter(Strip(RuleText(headerYaml, lines))) == LStripChar(RStrip(Concat(Trimmed(lines))), '\n')
  {
    assert Join(fm, "\n") != [] by {
      assert Join(fm, "\n") == fm[0] + "\n" + Join(fm[1..], "\n");
    }
    StrippedRuleText(headerYaml, lines);
    WithoutFrontmatterOf(fm, RStrip(Concat(Trimmed(lines))));
  }

  /** What implode keeps of a cursor rule explode wrote: its frontmatter is gone. */
  lemma CursorRuleFrontmatterRoundTrip(glob: string, lines: seq<string>)
    requires '\n' !in glob && !AllBlank(lines)
    ensures WithoutFrontmatter(Strip(RuleText(CursorFrontmatter(glob), lines)))
            == LStripChar(RStrip(Concat(Trimmed(lines))), '\n')
  {
    CursorFenceLinesAre(glob);
    CursorFrontmatterLines(glob);
    FenceLinesStrip(CursorFenceLines(glob));
    RuleFrontmatterDropped(CursorFrontmatter(glob), CursorFenceLines(glob), lines);
  }

  /** What implode keeps of an instruction file explode wrote: its frontmatter is gone. */
  lemma CopilotRuleFrontmatterRoundTrip(glob: string, lines: seq<string>)
    requires '\n' !in glob && !AllBlank(lines)
    ensures WithoutFrontmatter(Strip(RuleText(CopilotFrontmatter(glob), lines)))
            == LStripChar(RStrip(Concat(Trimmed(lines))), '\n')
  {
    CopilotFenceLinesAre(glob);
    CopilotFrontmatterLines(glob);
    FenceLinesStrip(CopilotFenceLines(glob));
    RuleFrontmatterDropped(CopilotFrontmatter(glob), CopilotFenceLines(glob), lines);
  }

  /** What implode keeps of general.mdc: its frontmatter is gone. */
  lemma GeneralRuleFrontmatterRoundTrip(lines: seq<string>)
    requires !AllBlank(lines)
    ensures WithoutFrontmatter(Strip(RuleText(GeneralFrontmatter, lines)))
            == LStripChar(RStrip(Concat(Trimmed(lines))), '\n')
  {
    GeneralFenceLinesAre();
    GeneralFrontmatterLines();
    FenceLinesStrip(GeneralFenceLines());
    RuleFrontmatterDropped(GeneralFrontmatter, GeneralFenceLines(), lines);
  }

  /**
   * `.github/copilot-instructions.md`, written by write_rule with no
   * frontmatter, comes back as the first, unheaded block of the github
   * bundle holding the stripped general text.
   */
  lemma CopilotGeneralRoundTrip(lines: seq<string>)
    requires !AllBlank(lines)
    ensures CopilotGeneralBlocks(Some(RuleText("", lines))) == [Block(None, Strip(Concat(Trimmed(lines))))]
  {
    var c := Concat(Trimmed(lines));
    assert Strip("") == "";
    assert RuleText("", lines) == "\n" + c;
    assert ("\n" + c)[1..] == c;
    assert Strip("\n" + c) == Strip(c);
    ConcatNotAllSpace(Trimmed(lines));
  }

  /** Stripping trailing whitespace after a header line keeps the header and the stripped rest. */
  lemma HeaderLineRStrip(proper: string, d: string)
    requires proper != [] && !IsSpace(proper[|proper| - 1])
    ensures AllSpace(d) ==> RStrip(ProperHeaderLine(proper) + d) == "## " + proper
    ensures !AllSpace(d) ==> RStrip(ProperHeaderLine(proper) + d) == "## " + proper + "\n" + RStrip(d)
  {
    var h := "## " + proper;
    assert ProperHeaderLine(proper) + d == h + "\n" + d;
    RStripAfterLine(h, d);
  }

  /** The lines of a stripped section: its header line, then the lines of the stripped rest. */
  lemma HeaderLineSplit(proper: string, d: string)
    requires proper != [] && '\n' !in proper && !IsSpace(proper[|proper| - 1])
    ensures SplitLines(RStrip(ProperHeaderLine(proper) + d)) == ["## " + proper] + SplitLines(RStrip(d))
  {
    var h := "## " + proper;
    assert '\n' !in h;
    HeaderLineRStrip(proper, d);
    RStripEmpty(d);
    if AllSpace(d) {
      SplitLinesSingle(h);
    } else {
      SplitLinesCons(h, RStrip(d));
    }
  }

  /** A header line followed by more text loses the header and the blank lines after it. */
  lemma HeaderLineDropped(h: string, d: string)
    requires IsSectionHeader(h) && h[0] != '\n' && !IsSpace(h[|h| - 1])
    requires SplitLines(RStrip(h + "\n" + d)) == [h] + SplitLines(RStrip(d))
    ensures WithoutHeader(LStripChar(RStrip(h + "\n" + d), '\n'))
            == Join(DropLeadingBlank(SplitLines(RStrip(d))), "\n")
  {
    var r := RStrip(h + "\n" + d);
    RStripAfterLine(h, d);
    assert r[0] == h[0];
    assert LStripChar(r, '\n') == r;
    HeaderLineLines(r, [h] + SplitLines(RStrip(d)));
  }

  /** strip_header on text whose first line is a header. */
  lemma HeaderLineLines(r: string, lines: seq<string>)
    requires SplitLines(r) == lines && lines != [] && IsSectionHeader(lines[0])
    ensures WithoutHeader(r) == Join(DropLeadingBlank(lines[1..]), "\n")
  {
  }

  /**
   * A section that starts with the header line replace_header_with_proper_casing
   * writes loses that line and the blank lines after it in strip_header.
   */
  lemma HeaderRoundTrip(proper: string, d: string)
    requires proper != [] && '\n' !in proper && !IsSpace(proper[|proper| - 1])
    ensures WithoutHeader(LStripChar(RStrip(ProperHeaderLine(proper) + d), '\n'))
            == Join(DropLeadingBlank(SplitLines(RStrip(d))), "\n")
  {
    var h := "## " + proper;
    assert ProperHeaderLine(proper) + d == h + "\n" + d;
    assert IsSectionHeader(h) by { assert h[..3] == "## "; }
    assert h[0] == '#';
    HeaderLineSplit(proper, d);
    HeaderLineDropped(h, d);
  }

  /** A rule's body is the content after its first line when that line is the proper header line. */
  lemma ContentAfterHeader(lines: seq<string>, proper: string)
    requires Trimmed(lines) != [] && Trimmed(lines)[0] == ProperHeaderLine(proper)
    ensures Concat(Trimmed(lines)) == ProperHeaderLine(proper) + Concat(Trimmed(lines)[1..])
  {
  }

  /**
   * A cursor rule file explode writes for a section comes back, in the
   * cursor bundle, as the section's text after its header line: the
   * frontmatter is dropped, then the header and the blank lines after it,
   * and trailing whitespace is stripped.
   */
  lemma CursorRuleRoundTrip(glob: string, lines: seq<string>, proper: string)
    requires '\n' !in glob
    requires Trimmed(lines) != [] && Trimmed(lines)[0] == ProperHeaderLine(proper)
    requires proper != [] && '\n' !in proper && !IsSpace(proper[|proper| - 1])
    ensures FragmentBody(RuleText(CursorFrontmatter(glob), lines))
            == Join(DropLeadingBlank(SplitLines(RStrip(Concat(Trimmed(lines)[1..])))), "\n")
  {
    CursorRuleFrontmatterRoundTrip(glob, lines);
    ContentAfterHeader(lines, proper);
    HeaderRoundTrip(proper, Concat(Trimmed(lines)[1..]));
  }

  /** The same for the instruction file explode writes for a section, in the github bundle. */
  lemma CopilotRuleRoundTrip(glob: string, lines: seq<string>, proper: string)
    requires '\n' !in glob
    requires Trimmed(lines) != [] && Trimmed(lines)[0] == ProperHeaderLine(proper)
    requires proper != [] && '\n' !in proper && !IsSpace(proper[|proper| - 1])
    ensures FragmentBody(RuleText(CopilotFrontmatter(glob), lines))
            == Join(DropLeadingBlank(SplitLines(RStrip(Concat(Trimmed(lines)[1..])))), "\n")
  {
    CopilotRuleFrontmatterRoundTrip(glob, lines);
    ContentAfterHeader(lines, proper);
    HeaderRoundTrip(proper, Concat(Trimmed(lines)[1..]));
  }

  /**
   * A section whose first line opens it keeps the proper header line at
   * its front once the header is rewritten and the section trimmed.
   */
  lemma ProperHeaderFirst(section: seq<string>, proper: string)
    requires section != [] && IsSectionHeader(section[0])
    ensures var t := Trimmed(WithProperHeader(section, proper));
      t != [] && t[0] == ProperHeaderLine(proper)
  {
    assert IsFirstHeader(section, 0);
    var w := WithProperHeader(section, proper);
    assert w[0] == ProperHeaderLine(proper);
    assert !IsBlank(w[0]) by { assert !IsSpace(w[0][0]); }
    assert FirstNonBlank(w) == 0;
  }
}
