# llm-ide-prompts: explode and implode

The repository keeps one Markdown file of instructions for LLM coding
assistants and converts it in two directions:

- `explode.py` splits `instructions.md` into fragment files.
  - The preamble before the first `## ` heading, when it has a non-blank
    line, becomes `general.mdc` for Cursor and
    `.github/copilot-instructions.md` for Copilot.
  - A section named in the section map is skipped when it is missing from
    the input or holds only blank lines.
  - A section that is present and mapped to a glob gets frontmatter around
    that glob and becomes a Cursor rule (`<name>.mdc`) and a Copilot
    instructions file (`<name>.instructions.md`).
  - A section that is present and mapped to no glob becomes a prompt file
    instead. The description is taken from a `Description:` line or derived
    from the first meaningful line.
- `implode.py` bundles the fragments back into one file.
  - Cursor rules come in section-map order, then the unmapped ones by
    name. The Copilot instruction files, as the code stands, come by name
    alone (see "## Findings").
  - The frontmatter and the section heading are dropped from each rule
    and instruction file, and every one of them except `general.mdc` gets
    a `## <Header>` heading in front of it. The Copilot general file,
    `.github/copilot-instructions.md`, is only stripped and written first.

The Dafny model has four modules:

- `Text` (text.dfy) holds the Python string operations the scripts rely
  on. These are `str.strip` with Python's whitespace set, `lower` on ASCII,
  `splitlines` on `\n`, `'\n'.join`, `lstrip('\n')`, `str.replace`, and
  code-point order for `sorted`.
- `Explode` (explode.dfy) models the loops of `explode.py` as methods with
  invariants. Each method is proved equal to a specification function, and
  the properties the script promises are proved about those functions.
  `replace_header_with_proper_casing` updates the list in place, so it is a
  method on an `array<string>`.
- `Implode` (implode.dfy) models `get_ordered_files`, `strip_yaml_frontmatter`,
  `strip_header` and the two bundle loops the same way. The dictionary keyed
  by `Path.stem` is a sequence in insertion order. The listed files are
  `(name, content)` values, and each bundle loop returns the text it
  writes.
- `RoundTrip` (roundtrip.dfy) connects the two scripts. A rule file that
  `explode.py` writes loses its frontmatter when `implode.py` reads it
  back, then its header line and the blank lines after it. What remains
  is the section's text after the header. This holds under three
  conditions:
  - the glob holds no newline;
  - the proper header is non-empty, holds no newline and does not end in
    whitespace;
  - the first non-blank line of the section is the rewritten `## <proper>`
    line.

  The last condition fails for a section whose header line is indented,
  such as `  ## Python`. `extract_section` strips a line before comparing
  it with the header, so it finds that section. But
  `replace_header_with_proper_casing` and `strip_header` test the line as
  written, so they keep it. The bundle then carries the heading twice.

The section map and the two name conversions come from a `constants`
module that is not part of this model. They are parameters everywhere:
- `keys` is the order of the section map;
- `toFilename` is `header_to_filename`;
- `toHeader` is `filename_to_header`.

## Model

| member | source | states |
|---|---|---|
| Text.Strip | explode.py:55 | `str.strip()`: the result is empty exactly when the text is all whitespace, and otherwise starts and ends with a non-space character |
| Text.IsBlank | explode.py:77 | `not line.strip()` (the same test at explode.py:87): the line is all whitespace; Text.BlankIffStripEmpty states that this is the stripped line being empty |
| Text.StartsWith | explode.py:117 | `str.startswith(prefix)`, used at explode.py:37 and 117; Text.IsSectionHeader and Explode.LabelledDescription use it |
| Text.IsSpace | explode.py:55 | Python's `isspace()`, the set `strip()` removes; Text.Strip, Text.StripIsSlice and Text.RStrip state what stripping with it does |
| Text.IsSectionHeader | explode.py:37 | `line.startswith("## ")`, tested on the line as written; Explode.HeaderFrom states the scans that use it |
| Text.Lower | explode.py:55 | `lower()` on ASCII letters; Text.LowerPointwise states it |
| Text.LowerPointwise | explode.py:55 | lowering keeps the length and maps every character on its own, `A`-`Z` to `a`-`z` and every other character to itself |
| Text.LastIndexOf | implode.py:17 | `rfind('.')`: the index of the last dot, or -1; no dot follows it |
| Text.IndexOf | explode.py:134-135 | the first occurrence of a character, standing for `split('.')[0]`: the index of the first dot, or the length; no dot comes before it |
| Text.Join | implode.py:63 | `sep.join(parts)`; Text.JoinEnds, Text.JoinSplitLines and Text.SplitLinesJoin state its shape |
| Text.JoinEnds | implode.py:74 | a join starts with its first part and ends with its last |
| Text.Concat | explode.py:68-69 | the text of several writes in a row; Text.ConcatSnoc states it |
| Text.ConcatSnoc | explode.py:68-69 | writing one more line appends it to what was written |
| Text.RemoveAll | implode.py:99 | `replace(pattern, '')`, leftmost occurrences first; Implode.RemoveInstructionsSuffix states what it does to an instruction stem |
| Text.StripIsSlice | explode.py:116 | the stripped text is a contiguous slice of the input with only whitespace cut away on either side |
| Text.StripIdempotent | implode.py:45 | stripping twice gives the same text as stripping once |
| Text.RStrip | implode.py:45 | trailing whitespace only is removed: the result is a prefix, the cut part is all whitespace, and the last kept character is not whitespace |
| Text.SplitLines | implode.py:58 | `splitlines()`: no line holds a newline, and the text is empty exactly when there are no lines |
| Text.JoinSplitLines | implode.py:63 | joining the lines of a text that does not end in a newline with `\n` gives the text back |
| Text.SplitLinesJoin | implode.py:58 | splitting lines joined with `\n`, followed by more text, gives those lines followed by the lines of that text |
| Text.LStripChar | implode.py:63 | `lstrip('\n')`: the result is a suffix, only newlines are cut, and it does not start with a newline |
| Text.LexLessIrreflexive | implode.py:28 | the name order `sorted` uses puts no name before itself |
| Text.LexLessTransitive | implode.py:28 | the name order is transitive |
| Text.LexLessTotal | implode.py:28 | any two different names are ordered one way or the other |
| Explode.General | explode.py:31-40 | the general part is a prefix of the lines, none of its lines starts with `## `, and it ends at the end of the input or at a line starting with `## ` |
| Explode.HeaderFrom | explode.py:36-37 | the index of the first line at or after the start that starts with `## `, or the line count: no line before it starts with `## `, and the line there does (the same test at explode.py:52 and 101) |
| Explode.GeneralUnique | explode.py:35-40 | any prefix with those three properties is the general part |
| Explode.ExtractGeneral | explode.py:31-40 | the loop returns the general part |
| Explode.FirstMatch | explode.py:55 | the first line whose stripped, lower-cased text equals the lower-cased header, or the line count when none does |
| Explode.MatchesHeader | explode.py:55 | `line.strip().lower() == header.lower()`; Explode.FirstMatch and Explode.Section state where it holds |
| Explode.Section | explode.py:43-58 | the section is empty exactly when no line matches the header; otherwise it starts at the first matching line and runs up to the next `## ` line or the end; after its first line it holds no `## ` line |
| Explode.ExtractSection | explode.py:43-58 | the loop with its `in_section` flag returns the section |
| Explode.SectionFrom | explode.py:50-54 | when the first match is at `start` and the next `## ` line after it is at `e`, the section is exactly `lines[start..e]` |
| Explode.Trimmed | explode.py:72-91 | `trim_content` is empty exactly when every line is blank; otherwise its first and last lines are not blank |
| Explode.TrimmedIsSlice | explode.py:74-91 | the trimmed lines are a contiguous slice of the input, and every line dropped before or after it is blank |
| Explode.TrimContent | explode.py:72-91 | the two scans, with `for`/`else` for the all-blank case, return the trimmed lines |
| Explode.FirstNonBlank | explode.py:75-82 | the first scan of `trim_content`: the index of the first non-blank line, or the line count; every line before it is blank |
| Explode.EndNonBlank | explode.py:85-89 | the second scan: the end of the last non-blank line, or 0; every line from there on is blank |
| Explode.TrimmedIdempotent | explode.py:72-91 | trimming trimmed lines changes nothing |
| Explode.TrimmedUnique | explode.py:72-91 | lines with non-blank ends, surrounded only by blank lines, trim to themselves |
| Explode.TrimmedIgnoresBlankEdges | explode.py:72-91 | adding blank lines before or after the input does not change the trimmed lines |
| Explode.WithProperHeader | explode.py:94-105 | the length is kept; the lines come back unchanged when none starts with `## ` (the empty list included); otherwise exactly the first such line becomes `## <proper>\n` |
| Explode.ProperHeaderLine | explode.py:102 | the f-string `## {proper_header}\n`; Explode.WithProperHeader states where it is placed and RoundTrip.HeaderRoundTrip what implode makes of it |
| Explode.ReplaceHeaderWithProperCasing | explode.py:94-105 | the in-place update leaves the array holding the rewritten lines of its old contents |
| Explode.FirstMeaningful | explode.py:114-117 | the first line that is not blank and does not start with `#` once stripped, or the line count |
| Explode.IsMeaningful | explode.py:117 | a line that is not blank and does not start with `#` once stripped (the same test at explode.py:132); Explode.FirstMeaningful states where it first holds |
| Explode.LabelledDescription | explode.py:116-120 | the text after `Description:` on a stripped line, stripped, or empty; a non-empty result comes from a labelled line and has no whitespace at either end |
| Explode.DescriptionAndContent | explode.py:108-152 | the description and the filtered content; Explode.LabelledDescriptionTaken, UnlabelledContentTrimmed, FallbackDescriptionTaken, NoMeaningfulLineGivesDefault and FilteredContentTrimmed state each case |
| Explode.FallbackDescription | explode.py:133-139 | with a full stop, the description is the stripped text before the first full stop plus `.`; without one, it is the stripped first 100 characters, followed by `...` when the line is longer; a line starting with a non-space gives a non-empty description |
| Explode.ExtractDescriptionAndFilterContent | explode.py:108-152 | the two loops return the description and content defined by the labelled and fallback cases below |
| Explode.LabelledDescriptionTaken | explode.py:115-150 | a first meaningful line `Description: <text>` with non-empty text gives that text, and the content is the trimmed lines without that one line, trimmed again |
| Explode.UnlabelledContentTrimmed | explode.py:128-145 | without a labelled first meaningful line, the content is the trimmed input |
| Explode.FallbackDescriptionTaken | explode.py:128-145 | without a label, the first meaningful line gives the fallback description, which is never empty, so the default is not used |
| Explode.NoMeaningfulLineGivesDefault | explode.py:142-145 | with no meaningful line, the description is the default and the content is the trimmed input |
| Explode.FilteredContentTrimmed | explode.py:145-150 | the returned content never starts or ends with a blank line |
| Explode.WriteLines | explode.py:68-69 | writing the lines one after another appends their concatenation |
| Explode.CursorFrontmatter | explode.py:14-21 | the fence, `description:`, `globs: <glob>`, `alwaysApply: false` and the fence, each followed by a newline; RoundTrip.CursorFrontmatterLines and RoundTrip.CursorFenceLinesAre prove these are fence-line frontmatter |
| Explode.CopilotFrontmatter | explode.py:23-28 | the fence, `applyTo: "<glob>"` and the fence, each followed by a newline; RoundTrip.CopilotFrontmatterLines and RoundTrip.CopilotFenceLinesAre prove these are fence-line frontmatter |
| Explode.GeneralFrontmatter | explode.py:241-246 | a newline, then the fence, `description:`, `alwaysApply: true` and the fence, each followed by a newline; RoundTrip.GeneralFrontmatterLines and RoundTrip.GeneralFenceLinesAre prove these are fence-line frontmatter |
| Explode.RuleText | explode.py:65-69 | what `write_rule` writes; Explode.RuleTextContent and RuleTextIgnoresBlankEdges state it, and the RoundTrip lemmas read it back |
| Explode.CursorPromptText | explode.py:161-173 | what `write_cursor_prompt` writes, a description block only for a non-empty description; Explode.WriteCursorPrompt computes it |
| Explode.DescriptionIffMeaningful | explode.py:127-145 | with an empty default, there is a description exactly when the trimmed content has a meaningful line |
| Explode.CursorPromptShape | explode.py:157-176 | the cursor prompt starts with `---` exactly when the description is non-empty, and then with the whole `---\ndescription: <d>\n---\n` block; it always ends with the filtered content |
| Explode.GithubPromptText | explode.py:182-193 | what `write_github_prompt` writes, always with agent-mode frontmatter; Explode.WriteGithubPrompt computes it |
| Explode.WriteRule | explode.py:61-69 | the file holds the stripped frontmatter, a newline, then the trimmed lines |
| Explode.RuleTextIgnoresBlankEdges | explode.py:65-69 | blank lines around a section do not change the rule file |
| Explode.RuleTextContent | explode.py:65-69 | the rule file is the stripped frontmatter, a newline, and a contiguous run of the input lines with only blank lines dropped around it |
| Explode.WriteCursorPrompt | explode.py:155-173 | the prompt file has a description block when the description is non-empty, then the filtered content |
| Explode.WriteGithubPrompt | explode.py:176-193 | the prompt file always has the agent-mode frontmatter with the description, then the filtered content |
| Implode.StemOfSuffixed | implode.py:35 | `Path.stem` of `base.ext` is `base` when the extension has no dot |
| Implode.Stem | implode.py:17 | `Path.stem`; Implode.StemShape and StemOfSuffixed state it |
| Implode.StemShape | implode.py:17 | the stem is a prefix of the name; it is shorter exactly when the name has a dot that is neither its first nor its last character, and then it ends right before the last dot |
| Implode.FileDict | implode.py:17 | the dict comprehension, one entry per stem in first-insertion order holding the last file; Implode.FileDictUnique, FileDictMembers and FileDictOfUniqueStems state it |
| Implode.Find | implode.py:23 | `filename in file_dict`: the position of the entry with that stem, or the entry count; no earlier entry has that stem |
| Implode.Put | implode.py:17 | one insertion into the dict; Implode.PutUnique and PutMembers state it |
| Implode.PutUnique | implode.py:17 | an insertion keeps one entry per stem |
| Implode.PutMembers | implode.py:17 | after an insertion the dict holds the new file and the old entries of other stems |
| Implode.Remove | implode.py:25 | `del file_dict[filename]`; Implode.RemoveMultiset states it |
| Implode.RemoveMultiset | implode.py:25 | deleting an entry removes exactly that file |
| Implode.KeyPass | implode.py:20-25 | the loop over the keys as a recursion from key `s`; Implode.KeyPassProperties states it |
| Implode.FileDictUnique | implode.py:17 | the dict comprehension holds at most one file per stem |
| Implode.FileDictMembers | implode.py:17 | a file is in the dict exactly when no later listed file has the same stem |
| Implode.FileDictOfUniqueStems | implode.py:17 | when all stems differ, the dict holds every file, in listing order |
| Implode.FirstKey | implode.py:21-23 | the position of the first key whose file name is the stem, or the key count |
| Implode.TakeStep | implode.py:21-25 | taking and deleting the entry for a key keeps stems unique, moves exactly that file, leaves no entry for this key or an earlier one, and the file's first key is this one |
| Implode.KeyPassProperties | implode.py:20-25 | the key loop splits the dict into the taken files, in key order, and the remaining ones, which no key maps; together they are the dict's files |
| Implode.SortByName | implode.py:28 | sorting keeps exactly the same files |
| Implode.InsertByName | implode.py:28 | one insertion step of the stable sort by name: the result holds exactly the old files and the new one |
| Implode.SortByNameSorted | implode.py:28 | the sorted files are in name order |
| Implode.InsertByNameSorted | implode.py:28 | inserting a file into a sorted list keeps it sorted |
| Implode.OrderedBy | implode.py:15-31 | `get_ordered_files` for any stem function: the taken files, then the rest sorted; Implode.OrderedByMembers and OrderedByOrder state it |
| Implode.OrderedFiles | implode.py:15-31 | the same with `Path.stem`, as the scripts call it |
| Implode.OrderedByMembers | implode.py:15-31 | the ordered list is a permutation of the dict: it holds the last listed file of every stem, each stem once |
| Implode.OrderedByPermutation | implode.py:15-31 | when all stems differ, the ordered list is a permutation of the input |
| Implode.OrderedByOrder | implode.py:15-31 | of any two files in the ordered list, a mapped later one has a strictly later key, and an unmapped later one comes after a mapped one or has a greater name |
| Implode.OrderedByNameWhenUnmapped | implode.py:27-29 | when no file is mapped, the result is strictly ordered by name |
| Implode.OrderFilesByKeys | implode.py:15-31 | the loop over the keys with `del` and the sorted rest compute the ordered list |
| Implode.GetOrderedFiles | implode.py:15-31 | the same with `Path.stem` as the key |
| Implode.NextFence | implode.py:61-62 | the index of the first line at or after the start that strips to `---`, or the line count |
| Implode.IsFence | implode.py:59 | `line.strip() == '---'` (the same test at implode.py:62); Implode.NextFence and RoundTrip.WithoutFrontmatterOf state where it holds |
| Implode.WithoutFrontmatter | implode.py:57-64 | what `strip_yaml_frontmatter` returns; Implode.StripYamlFrontmatter computes it and RoundTrip.WithoutFrontmatterOf states what it does to the files explode writes |
| Implode.StripYamlFrontmatter | implode.py:57-64 | the scan returns the lines after the first closing fence, rejoined and without leading newlines, when the first line is a fence and a later one closes it; otherwise it returns the text unchanged |
| Implode.DropLeadingBlank | implode.py:72-73 | the result is a suffix of the lines, every dropped line is blank, and the result is empty or starts with a non-blank line |
| Implode.WithoutHeader | implode.py:66-75 | what `strip_header` returns; Implode.WithoutHeaderUnchanged and WithoutHeaderStartsNonBlank state it |
| Implode.StripHeader | implode.py:66-75 | the loop drops the header and the blank lines after it and rejoins the rest, or leaves the text unchanged |
| Implode.WithoutHeaderUnchanged | implode.py:69-75 | text whose first line does not start with `## ` comes back unchanged |
| Implode.WithoutHeaderStartsNonBlank | implode.py:69-74 | once a header is dropped, the result is empty exactly when only blank lines followed the header; otherwise its first line is the first non-blank line after the header |
| Implode.GeneralRules | implode.py:35 | the general list holds exactly the listed files whose stem is `general` |
| Implode.OtherRules | implode.py:36 | the other list holds exactly the listed files whose stem is not `general` |
| Implode.FragmentBody | implode.py:45-49 | the body of a fragment: stripped, then its frontmatter and its header dropped; RoundTrip.CursorRuleRoundTrip and CopilotRuleRoundTrip state it for the files explode writes |
| Implode.RenderBlock | implode.py:53-55 | the optional `## <heading>` line and a blank line, the body, then `\n\n` |
| Implode.Render | implode.py:42-55 | the text of a bundle; Implode.RenderAppend and RenderEndsWithBlankLine state it |
| Implode.Blocks | implode.py:43-55 | the blocks a bundle loop writes, one per non-skipped file; Implode.BlocksOfNonEmpty, BlocksAppend and BlocksFrom state it |
| Implode.CursorBlockOf | implode.py:45-55 | the block of one rule file; Implode.CursorHeading states its heading |
| Implode.NonEmptyFiles | implode.py:45-47 | the files a bundle loop does not skip are exactly those whose stripped text is non-empty |
| Implode.BlocksOfNonEmpty | implode.py:43-55 | the bundle has one block per non-skipped file, in list order |
| Implode.BlocksAppend | implode.py:40 | the blocks of two concatenated lists are the blocks of the first list, then those of the second |
| Implode.BlocksFrom | implode.py:43-55 | every block is made from one of the listed files |
| Implode.CursorHeading | implode.py:51-53 | a rule file `<base>.mdc`, with any non-empty base (dotted ones such as `node.js` included), gets the heading `filename_to_header(base)`, except `general.mdc`, which gets none |
| Implode.RenderEndsWithBlankLine | implode.py:55 | a bundle with at least one block ends with `\n\n` |
| Implode.RenderAppend | implode.py:42-55 | writing two runs of blocks writes the first run's text, then the second's |
| Implode.WriteRuleBlocks | implode.py:43-55 | the loop writes the rendering of the non-skipped files' blocks |
| Implode.BundleCursorRules | implode.py:33-55 | the cursor bundle is the general rules followed by the others in key order, rendered as blocks |
| Implode.CursorOrder | implode.py:38-40 | `general + ordered_others`; Implode.BundleCursorRules bundles in this order and Implode.CursorBundleGeneralFirst states that the general rules come first |
| Implode.CursorBundleGeneralFirst | implode.py:35-53 | in the cursor bundle, every unheaded block comes before every headed one, so general text stays first |
| Implode.InstructionsStem | implode.py:79 | a `*.instructions.md` name has a stem that still ends in `.instructions` |
| Implode.IsInstructionsName | implode.py:79 | the glob `*.instructions.md`: a name that ends with that suffix; Implode.InstructionsStem states the stem of such a name |
| Implode.GithubOrderAsWritten | implode.py:79-82 | the order of the instruction files as the code computes it; Implode.GithubOrderIgnoresKeys states it |
| Implode.GithubOrder | implode.py:79-82 | the corrected order, with the lookup by `header_to_filename(key) + ".instructions"`; Implode.GithubOrderFollowsKeys and InstructionsFileMapped state it |
| Implode.InstructionsFilename | explode.py:257 | the corrected lookup name `header_to_filename(key) + ".instructions"`, the stem of the file explode writes at explode.py:268; Implode.InstructionsFileMapped states that it matches |
| Implode.GithubOrderIgnoresKeys | implode.py:79-82 | as written, when no name `header_to_filename` gives ends in `.instructions`, the instruction files are ordered strictly by name whatever the keys say |
| Implode.InstructionsFileMapped | implode.py:82 | with the corrected lookup, the file written for a key is mapped to that key or an earlier one |
| Implode.GithubOrderFollowsKeys | implode.py:79-82 | with the corrected lookup, instruction files come in key order, then the unmapped ones by name |
| Implode.RemoveInstructionsSuffix | implode.py:99 | removing `.instructions` from `<base>.instructions` leaves `base` whenever `base` holds no `.instructions` of its own; dots in `base`, as in `node.js`, do no harm |
| Implode.InstructionsHeading | implode.py:99-100 | the file `<base>.instructions.md` gets the heading `filename_to_header(base)` whenever `base` holds no `.instructions` of its own; a base that does would lose that part too, since `replace` removes every occurrence |
| Implode.DottedInstructionsHeading | implode.py:99-100 | `node.js.instructions.md` gets the heading `filename_to_header("node.js")` |
| Implode.InstructionsBlockOf | implode.py:93-100 | the block of one instruction file; Implode.InstructionsHeading states its heading |
| Implode.CopilotGeneralBlocks | implode.py:86-90 | the unheaded block of the stripped copilot general text, when the file exists and has text; RoundTrip.CopilotGeneralRoundTrip states it |
| Implode.GithubBundleBlocks | implode.py:84-102 | the github bundle's blocks for ordered files: the copilot general block, then the instruction blocks |
| Implode.GithubBlocks | implode.py:77-102 | the github bundle's blocks in the order as written |
| Implode.CorrectedGithubBlocks | implode.py:77-102 | the github bundle's blocks in the corrected order |
| Implode.WriteInstructionBlocks | implode.py:91-102 | the loop writes every non-skipped instruction file as a headed block |
| Implode.WriteGithubBundle | implode.py:84-102 | the writes once the files are ordered: the stripped copilot general text when there is any, then the instruction blocks |
| Implode.BundleGithubInstructions | implode.py:77-102 | the github bundle as written: the copilot general block, then the instruction blocks in `get_ordered_files` order with the lookup by `header_to_filename(key)` |
| Implode.CorrectedBundleGithubInstructions | implode.py:77-102 | the same bundle with the instruction files in the corrected order |
| Implode.GithubBundleGeneralFirst | implode.py:84-102 | in either order, the github bundle has at most one unheaded block, the general instructions, and it comes before every headed one; every instruction-file block is headed |
| RoundTrip.CursorFrontmatterLines | explode.py:14-21 | the cursor frontmatter is five lines joined by newlines, with a final newline |
| RoundTrip.CursorFenceLinesAre | explode.py:14-21 | those lines are `---` first and last, and none in between is a fence |
| RoundTrip.CopilotFrontmatterLines | explode.py:23-28 | the copilot frontmatter is three lines joined by newlines, with a final newline |
| RoundTrip.CopilotFenceLinesAre | explode.py:23-28 | those lines are `---` first and last, and none in between is a fence |
| RoundTrip.GeneralFrontmatterLines | explode.py:241-246 | the general frontmatter is a newline, then four lines joined by newlines, with a final newline |
| RoundTrip.GeneralFenceLinesAre | explode.py:241-246 | those lines are `---` first and last, and none in between is a fence |
| RoundTrip.FenceLinesStrip | explode.py:67 | `strip()` of frontmatter made of fence lines removes only its edge newlines |
| RoundTrip.StrippedRuleText | implode.py:45 | a rule file with content, once stripped, is its frontmatter, a newline and the trimmed content without trailing whitespace |
| RoundTrip.WithoutFrontmatterOf | implode.py:57-64 | fence-line frontmatter followed by text is removed as a whole, and leading newlines of the rest go too |
| RoundTrip.RuleFrontmatterDropped | implode.py:45-48 | implode drops the frontmatter of any rule file explode writes with fence-line frontmatter |
| RoundTrip.CursorRuleFrontmatterRoundTrip | implode.py:45-48 | reading back a cursor rule yields its trimmed content without its frontmatter |
| RoundTrip.CopilotRuleFrontmatterRoundTrip | implode.py:93-96 | reading back an instructions file yields its trimmed content without its frontmatter |
| RoundTrip.GeneralRuleFrontmatterRoundTrip | implode.py:45-48 | reading back `general.mdc` yields its trimmed content without its frontmatter |
| RoundTrip.CopilotGeneralRoundTrip | implode.py:86-90 | the copilot general file comes back as the single unheaded first block holding the stripped general text |
| RoundTrip.HeaderLineSplit | implode.py:68 | the lines of a stripped section are its header line, then the lines of the stripped rest |
| RoundTrip.HeaderRoundTrip | implode.py:66-75 | the header line written by the header rewrite is dropped by `strip_header`, with the blank lines after it |
| RoundTrip.ProperHeaderFirst | explode.py:94-105 | a section that starts with its header keeps the rewritten header line first once trimmed |
| RoundTrip.ContentAfterHeader | explode.py:68-69 | a rule whose first trimmed line is the header line writes that line, then the rest of the content |
| RoundTrip.CursorRuleRoundTrip | implode.py:43-55 | a cursor rule explode writes for a section comes back in the cursor bundle as the section's text after its header, without the blank lines after the header or trailing whitespace |
| RoundTrip.CopilotRuleRoundTrip | implode.py:91-102 | the same for the instructions file of a section in the github bundle |

## Left out

- File reading and writing, `os.makedirs`, `Path.glob`, `Path.exists`. The listed files are given as `(name, content)` values in glob order. The general Copilot file is an `Option`. The text each file receives is returned.
- `main` in both scripts: argument parsing, `print` messages, the warning loop for sections missing from the map, and `sys.exit`.
- `process_unmapped_section` and the loop over unmapped `## ` headings (explode.py:196-209, 280-289). They only chain operations already modelled.
- The section loop of `main` (explode.py:253-272) is not a member of its own. The members it chains are modelled: section, header rewrite, frontmatter, rule file and prompt files.
- `SECTION_GLOBS`, `header_to_filename` and `filename_to_header` come from `constants.py`, which is not part of this model. They are parameters, so the model holds for any map and any name conversion.
- Text.SplitLines: splits on `\n` only. Python's `splitlines` also splits on `\r`, `\r\n` and other Unicode line breaks.
- Text.Lower: lowers ASCII letters only, where Python lowers all of Unicode.
- The lines `readlines` returns keep their `\n`, and they are modelled that way. Universal-newline translation of `\r\n` on reading is not modelled.

## Findings

| source | as written | input that shows it | evidently intended | confidence | as-written member | corrected member |
|---|---|---|---|---|---|---|
| implode.py:79-82 | `get_ordered_files` keys the instruction files by `Path.stem`, which for `react.instructions.md` is `react.instructions`. It looks them up by `header_to_filename(key)`, which names the file `react` that explode wrote as `react.instructions.md`. No stem ever matches, so the section-map order is ignored. | keys `["React", "Python"]` with `header_to_filename` giving `react` and `python`; files `python.instructions.md` and `react.instructions.md`; the bundle lists python before react | instruction files bundled in section-map order (react, then python), as the cursor bundle is | medium, not executed | Implode.GithubOrderIgnoresKeys | Implode.GithubOrderFollowsKeys |
