# Advisory-board report renderer and section patcher

This project models the two pieces of logic in two small command-line scripts.

- **The report generator** (`generate_report.py`) takes a decoded JSON record of an advisory-board ("私董会") session. It builds nine HTML fragments from the record's lists: advisor chips, background paragraphs, goals, insight cards, advisor pages with numbered suggestions, reflections, action items, timeline rows and golden-sentence cards. Some items are coloured or given an icon by a name rule: 巴菲特/Buffett, 盖茨/Gates, 马斯克/Musk, 乔布斯/Jobs. The generator then fills a template in two passes. First it replaces the seven scalar placeholders `{{ topic }}` … `{{ closing_message }}`, each with the field's value or its default. Then it replaces the nine fragment placeholders, in the order the fragment dictionary received them.
- **The project-knowledge patcher** (`update_cloudy.py`) takes the lines of a Markdown document. It finds the first heading line matching `^##\s+(\d+\.\s+)?<section>`, chooses an insertion index and splices the content in there. The content is normalised to end in a line break, and a blank spacer line goes before it when the line above is not blank. When no heading matches, the patcher reports an error.

How the model is organised:

- `wrappers.dfy` defines `Option` and `Result`.
- `seqs.dfy` defines the search for the first element of a sequence that passes a test. `NameRules.FirstMatch`, the ordered rule search that the if/elif chains of `get_color` and `get_icon` are proved equal to, uses it, and so does the patcher's scan for the first matching heading.
- `text.dfy` models the Python string operations the scripts use: `in` on strings, `strip`, `split('\n')`, `str.replace`, `startswith`/`endswith`, `isspace`, and `str(n)` for a badge number.
- `name_rules.dfy` models `get_color` and `get_icon`.
- `report_data.dfy` is the input record. Every key may be absent, which `Option` records.
- `markup.dfy` holds the fixed text of the f-strings as a table (`Markup`). The fragment builders take that table as a parameter, so the proofs do not depend on the exact markup. `StandardMarkup` holds the source's text.
- `fragments.dfy` has one specification function per fragment. Where the source builds a fragment with a loop, that loop is an imperative method proved equal to the function; the background fragment is a single comprehension (line 44) and stays a function. `GenerateHtmlSnippets` returns the fragment dictionary as an ordered list of (key, html) pairs.
- `render.dfy` covers placeholder substitution. `GenerateReport` performs the replacements one after another. `Rendered` states their combined result, and the lemmas say what each placeholder becomes.
- `patcher.dfy` models `update_cloudy`. `FindInsertIndex` and `UpdateCloudy` are methods following the code step by step. `Patch` is the function they are proved against.

The code and its comments disagree about where the patcher inserts. The comments at `update_cloudy.py` lines 23 and 37 say the block goes before the next heading. The inner loop at line 25 tests the heading line `line` instead of `lines[j]`. As a result:

- a heading that starts with `"## "` gets the block directly below it;
- any other matching heading, such as `##\t…`, gets the block at the end of the file.

The model follows the code and records the discrepancy under "## Findings". It also gives the intended behaviour, proved correct (`IntendedInsertIndex`, `FindSectionEnd`, `PatchAtSectionEnd`).

## Model

| member | source | states |
|---|---|---|
| NameRules.GetColor | peers-advisory-group/scripts/generate_report.py:7-17 | the colour is one of green/blue/red/purple/gray; gray only when no figure is recognised in either spelling; a name containing 巴菲特 or Buffett is green |
| NameRules.GetIcon | peers-advisory-group/scripts/generate_report.py:19-24 | the icon is one of the five; 👤 only when no Chinese name is recognised; 巴菲特 gives 🎩 |
| NameRules.FirstMatch | peers-advisory-group/scripts/generate_report.py:8-17 | the first rule in order that recognises the name, or none exactly when no rule does |
| NameRules.GetColorIsFirstMatch | peers-advisory-group/scripts/generate_report.py:7-17 | `get_color` is the colour of the first figure, in the order Buffett, Gates, Musk, Jobs, whose Chinese or English name occurs in the name; otherwise gray |
| NameRules.GetIconIsFirstMatch | peers-advisory-group/scripts/generate_report.py:19-24 | `get_icon` is the icon of the first figure whose Chinese name occurs in the name; otherwise 👤 |
| NameRules.RegistryMatch | peers-advisory-group/scripts/generate_report.py:8-15 | the rule chain spelled out as the if/elif cascade over the four figures |
| NameRules.GetColorDefault | peers-advisory-group/scripts/generate_report.py:16-17 | the colour is gray if and only if no figure is recognised |
| NameRules.GetIconDefault | peers-advisory-group/scripts/generate_report.py:24 | the icon is 👤 if and only if no Chinese name is recognised |
| NameRules.EarlierColorWins | peers-advisory-group/scripts/generate_report.py:8-15 | when two figures occur in a name, in either spelling, the later one's colour is never chosen |
| NameRules.EarlierIconWins | peers-advisory-group/scripts/generate_report.py:20-23 | when the Chinese names of two figures occur in a name, the later one's icon is never chosen |
| NameRules.RegistryDistinct | peers-advisory-group/scripts/generate_report.py:7-24 | different figures in the rule chain have different colours and different icons |
| NameRules.EnglishOnlyName | peers-advisory-group/scripts/generate_report.py:8-24 | a name that holds only an English spelling gets a figure colour but the default icon |
| NameRules.BuffettInEnglish | peers-advisory-group/scripts/generate_report.py:8-20 | "Buffett" is green but gets 👤 |
| Fragments.AdvisorsHtml | peers-advisory-group/scripts/generate_report.py:30-39 | the loop builds exactly the advisor chips, one per advisor in order, coloured by name; requires every advisor to have a name, which line 32 reads without a fallback |
| Fragments.AdvisorsFragmentAppend | peers-advisory-group/scripts/generate_report.py:31-38 | the chips of two advisor lists joined are the chips of each, concatenated |
| Fragments.AdvisorsFragment | peers-advisory-group/scripts/generate_report.py:30-39 | the chips of the advisors in list order; one advisor's fragment is exactly its chip, coloured by `get_color` of its name |
| Fragments.BackgroundAppend | peers-advisory-group/scripts/generate_report.py:43-44 | text on either side of a line break is paragraphed separately and in order |
| Fragments.BackgroundLine | peers-advisory-group/scripts/generate_report.py:44 | a single line gives no paragraph if it is all whitespace, otherwise one `<p>` around the stripped line |
| Fragments.BackgroundFragment | peers-advisory-group/scripts/generate_report.py:43-44 | the paragraphs of the lines of `split('\n')` in order; a background that is all whitespace, line breaks included, gives no paragraph at all |
| Fragments.GoalsHtml | peers-advisory-group/scripts/generate_report.py:47-55 | the loop builds one list item per goal, in order |
| Fragments.GoalsFragmentAppend | peers-advisory-group/scripts/generate_report.py:48-54 | the goals fragment distributes over joining goal lists |
| Fragments.GoalsFragment | peers-advisory-group/scripts/generate_report.py:47-55 | the list items of the goals in order; one goal's fragment is exactly its item |
| Fragments.InsightsHtml | peers-advisory-group/scripts/generate_report.py:58-72 | the loop builds one card per insight, with the icon of its position |
| Fragments.InsightIconsRotate | peers-advisory-group/scripts/generate_report.py:60-62 | the icons repeat every four insights and neighbouring insights never share one |
| Fragments.InsightDefaults | peers-advisory-group/scripts/generate_report.py:67-69 | a missing title renders as 洞察 and missing content as the empty string |
| Fragments.InsightsFragment | peers-advisory-group/scripts/generate_report.py:58-72 | the cards of the insights in order, each with its position; one insight's fragment is exactly its card at position 0 |
| Fragments.SuggestionsHtml | peers-advisory-group/scripts/generate_report.py:83-90 | the loop builds one item per suggestion, the one at position i badged i+1 |
| Fragments.SuggestionBadges | peers-advisory-group/scripts/generate_report.py:87 | each badge reads back as its number, and different positions get different badges |
| Fragments.AdvisorPagesHtml | peers-advisory-group/scripts/generate_report.py:75-143 | the loop builds one page per advisor, coloured and iconed by name, holding its suggestions fragment |
| Fragments.AdvisorPageDefaults | peers-advisory-group/scripts/generate_report.py:77-81 | for any advisor, a missing name renders as 幕僚 and a missing title as 私董会幕僚, whatever the other fields hold |
| Fragments.AdvisorPageBodyDefaults | peers-advisory-group/scripts/generate_report.py:82-84 | for any advisor, a missing quote, definition or experience renders as "" and a missing suggestions list as [], whatever the other fields hold |
| Fragments.AdvisorPagesFragment | peers-advisory-group/scripts/generate_report.py:75-143 | the pages of the advisors in order; one advisor's fragment is exactly its page |
| Fragments.ReflectionsHtml | peers-advisory-group/scripts/generate_report.py:146-158 | the loop builds one card per reflection, in order |
| Fragments.ReflectionBodyBreaks | peers-advisory-group/scripts/generate_report.py:154 | the reflection body holds no line break after the replacement, and a body without one is unchanged |
| Fragments.ReflectionHeading | peers-advisory-group/scripts/generate_report.py:152 | every card contains the speaker's name followed by 的反思 |
| Fragments.ReflectionsFragment | peers-advisory-group/scripts/generate_report.py:146-158 | the cards of the reflections in order; one reflection's fragment is exactly its card |
| Fragments.ActionItemsHtml | peers-advisory-group/scripts/generate_report.py:161-172 | the loop builds one checklist row per action item |
| Fragments.ActionItemsFragment | peers-advisory-group/scripts/generate_report.py:161-172 | the rows of the action items in order; one item's fragment is exactly its row |
| Fragments.TimelineHtml | peers-advisory-group/scripts/generate_report.py:175-186 | the loop builds one checklist row per timeline entry |
| Fragments.TimelineFragment | peers-advisory-group/scripts/generate_report.py:175-186 | the rows of the timeline entries in order; one entry's fragment is exactly its row |
| Fragments.ChecklistDefaults | peers-advisory-group/scripts/generate_report.py:167-182 | a missing deadline reads 立即执行; a missing timeline date reads "" |
| Fragments.GoldenSentencesHtml | peers-advisory-group/scripts/generate_report.py:189-201 | the loop builds one quote card per sentence, coloured by the advisor who said it |
| Fragments.GoldenSentencesFragment | peers-advisory-group/scripts/generate_report.py:189-201 | the cards of the golden sentences in order; one sentence's fragment is exactly its card |
| Fragments.Snippets | peers-advisory-group/scripts/generate_report.py:26-203 | the dictionary has the nine keys, in the order they are inserted |
| Fragments.GenerateHtmlSnippets | peers-advisory-group/scripts/generate_report.py:26-203 | the method builds exactly that dictionary |
| Fragments.FragmentKeysDistinct | peers-advisory-group/scripts/generate_report.py:39-201 | no key is stored twice |
| Fragments.EmptyReportSnippets | peers-advisory-group/scripts/generate_report.py:26-203 | a record without any list or mapping field renders every fragment as the empty string |
| Render.ScalarValues | peers-advisory-group/scripts/generate_report.py:241-247 | the seven scalar placeholders, in the order they are replaced |
| Render.ApplyAll | peers-advisory-group/scripts/generate_report.py:241-251 | the pairs' replacements one after the other; a single pair is exactly one `str.replace` of its placeholder by its value |
| Render.GenerateReport | peers-advisory-group/scripts/generate_report.py:238-251 | the output is the template with the scalar placeholders replaced and then the fragment placeholders, in dictionary order |
| Render.Rendered | peers-advisory-group/scripts/generate_report.py:238-251 | the scalar pass and then the fragment pass; a template holding none of the sixteen placeholders comes back unchanged |
| Render.ReplaceScalars | peers-advisory-group/scripts/generate_report.py:241-247 | the seven successive replacements give the scalar pass over the template |
| Render.ReplaceFragments | peers-advisory-group/scripts/generate_report.py:250-251 | the loop over the dictionary gives the fragment pass, one replacement per entry in order |
| Render.ScalarPass | peers-advisory-group/scripts/generate_report.py:241-247 | the scalar pass is the chain of seven replacements with the defaults 私董会报告, "", today's date, "", "", 案主, 感谢您的参与 |
| Render.ApplyAllSnoc | peers-advisory-group/scripts/generate_report.py:250-251 | replacing one more pair replaces its token in the result so far |
| Render.ApplyAllAppend | peers-advisory-group/scripts/generate_report.py:241-251 | the two passes compose: replacing a then b is replacing a + b |
| Render.ApplyAllUntouched | peers-advisory-group/scripts/generate_report.py:241-251 | text holding none of the tokens passes through unchanged |
| Render.TokenOccursOnlyInItself | peers-advisory-group/scripts/generate_report.py:251 | for a key without braces, another key's placeholder occurs inside its placeholder exactly when the keys are equal |
| Render.AllKeysText | peers-advisory-group/scripts/generate_report.py:241-251 | every one of the sixteen keys is text without braces |
| Render.AllKeysDistinct | peers-advisory-group/scripts/generate_report.py:241-251 | the sixteen placeholder keys are pairwise distinct |
| Render.TokenPassesUntouched | peers-advisory-group/scripts/generate_report.py:241-251 | a placeholder whose key has no braces and which no pair names survives all the replacements |
| Render.TokenMeetsItsPair | peers-advisory-group/scripts/generate_report.py:241-251 | a placeholder becomes its value, and that value then goes through the replacements that follow it |
| Render.ScalarAndFragmentKeysDiffer | peers-advisory-group/scripts/generate_report.py:241-251 | no scalar key is a fragment key |
| Render.FragmentTokenRendered | peers-advisory-group/scripts/generate_report.py:250-251 | a template that is just a fragment placeholder renders as its fragment, with the later fragment replacements applied to it |
| Render.ScalarTokenRendered | peers-advisory-group/scripts/generate_report.py:241-251 | a template that is just a scalar placeholder renders as its value, with the later scalar replacements and then all fragment replacements applied |
| Render.UnknownTokenUntouched | peers-advisory-group/scripts/generate_report.py:241-251 | a template that is just a placeholder whose key has no braces and is none of the sixteen (`{{ q1_answer }}`, `{{ Title }}`) renders as itself |
| Render.UnknownTokenKept | peers-advisory-group/scripts/generate_report.py:241-251 | a placeholder whose key has no braces and is none of the sixteen, anywhere in the template, is still in the report |
| Render.TokensApart | peers-advisory-group/scripts/generate_report.py:241-251 | placeholders of two different keys without braces never overlap in any text |
| Render.TokenSurvivesPass | peers-advisory-group/scripts/generate_report.py:241-251 | a placeholder whose key has no braces and which no pair names survives a whole pass of replacements, wherever it stands |
| Render.FragmentTokenInScalarValue | peers-advisory-group/scripts/generate_report.py:241-251 | a scalar value that equals a fragment placeholder is expanded by the fragment pass, exactly as that placeholder would be |
| Render.PlaceholderValuePasses | peers-advisory-group/scripts/generate_report.py:241-251 | a value that is the placeholder of a key this pass does not replace leaves the pass as that placeholder itself does, so the next pass sees the placeholder |
| Render.LastFragmentVerbatim | peers-advisory-group/scripts/generate_report.py:250-251 | a template that is just the last placeholder, golden sentences, renders as that fragment verbatim |
| Text.Strip | peers-advisory-group/scripts/generate_report.py:44 | the input is whitespace, then the stripped text, then whitespace; the stripped text is empty exactly when the input is all whitespace and otherwise has no whitespace at either end |
| Text.IsWs | project-knowledge-manager/scripts/update_cloudy.py:17 | `\s` and `str.isspace`; no whitespace character is a digit, a period or `#`, the other characters of the heading pattern |
| Text.SplitThenJoin | peers-advisory-group/scripts/generate_report.py:44 | joining the pieces of `split('\n')` with line breaks gives back the text |
| Text.JoinThenSplit | peers-advisory-group/scripts/generate_report.py:44 | splitting a join of break-free pieces gives back the pieces |
| Text.Split | peers-advisory-group/scripts/generate_report.py:44 | `split('\n')` yields at least one piece, and no piece holds the separator |
| Text.ReplaceAllLeftmost | peers-advisory-group/scripts/generate_report.py:251 | scanning from k, `str.replace` copies the text up to the leftmost occurrence, replaces it and resumes after it |
| Text.ReplaceAll | peers-advisory-group/scripts/generate_report.py:251 | `str.replace` for a non-empty pattern; replacing a pattern by itself changes nothing |
| Text.ReplaceAllWhole | peers-advisory-group/scripts/generate_report.py:251 | a string that is exactly the placeholder becomes exactly the value |
| Text.ReplaceAllRemovesChar | peers-advisory-group/scripts/generate_report.py:154 | replacing `\n` by text without one leaves no line break |
| Text.SplitAtSeparator | peers-advisory-group/scripts/generate_report.py:44 | splitting at a line break splits the two sides independently |
| Text.ReplaceAllKeeps | peers-advisory-group/scripts/generate_report.py:241-251 | `str.replace` keeps every occurrence of other text that no occurrence of the pattern overlaps |
| Text.ReplaceAllAbsent | peers-advisory-group/scripts/generate_report.py:241-251 | replacing a pattern that does not occur changes nothing |
| Text.DecimalRoundTrip | peers-advisory-group/scripts/generate_report.py:87 | the decimal text of a badge number reads back as that number |
| SectionPatch.HeadingShape | project-knowledge-manager/scripts/update_cloudy.py:17 | a matching line starts with `##` and a whitespace character |
| SectionPatch.HeadingMatches | project-knowledge-manager/scripts/update_cloudy.py:17 | `section_pattern.match(line)`; a matching line is at least as long as `##`, one whitespace character and the section, and contains the section |
| SectionPatch.FirstHeading | project-knowledge-manager/scripts/update_cloudy.py:20-21 | the first matching line, or none exactly when no line matches |
| Seqs.FirstWhere | project-knowledge-manager/scripts/update_cloudy.py:20-21 | the index of the first element satisfying the test, no earlier element satisfying it; none exactly when no element does |
| Seqs.FirstWhereAgrees | project-knowledge-manager/scripts/update_cloudy.py:20-21 | the first match depends only on the elements up to and including it |
| SectionPatch.InsertIndex | project-knowledge-manager/scripts/update_cloudy.py:24-30 | the code's insertion index lies after the heading: either directly below it or at the end of the file |
| SectionPatch.NormalizeContent | project-knowledge-manager/scripts/update_cloudy.py:40-41 | the content ends in a line break; it is unchanged if it already did, otherwise one break is added |
| SectionPatch.FindInsertIndex | project-knowledge-manager/scripts/update_cloudy.py:19-31 | the loop yields -1 when no heading matches, otherwise the insertion index for the first heading |
| SectionPatch.BuildNewLines | project-knowledge-manager/scripts/update_cloudy.py:39-47 | the method builds the spacer-and-content block of the patch |
| SectionPatch.NewLines | project-knowledge-manager/scripts/update_cloudy.py:39-47 | one or two lines: the normalised content last, preceded, when there are two, by a blank spacer |
| SectionPatch.PatchAtInsertIndex | project-knowledge-manager/scripts/update_cloudy.py:20-49 | when a heading matches, the patch splices the block in at the code's insertion index |
| SectionPatch.Patch | project-knowledge-manager/scripts/update_cloudy.py:17-49 | a failure names the section; a success adds one or two lines and holds the normalised content |
| SectionPatch.UpdateCloudy | project-knowledge-manager/scripts/update_cloudy.py:17-49 | the method's result is the patch: a `SectionNotFound` failure, or the lines with the block spliced in |
| SectionPatch.SpliceKeeps | project-knowledge-manager/scripts/update_cloudy.py:49 | the splice keeps the lines before and after the index in order and adds exactly the block (length and multiset) |
| SectionPatch.Splice | project-knowledge-manager/scripts/update_cloudy.py:49 | `lines[k:k] = block`; the document grows by the block, which stands at k, and an empty block changes nothing |
| SectionPatch.PatchFailsIffNoHeading | project-knowledge-manager/scripts/update_cloudy.py:33-35 | the patch fails if and only if no line matches, and it reports that section |
| SectionPatch.PatchAtFirstHeading | project-knowledge-manager/scripts/update_cloudy.py:20-31 | only the first matching heading decides the insertion point |
| SectionPatch.InsertIndexBelowHeading | project-knowledge-manager/scripts/update_cloudy.py:24-30 | the block lands directly below the heading if and only if the heading starts with `"## "` or is the last line |
| SectionPatch.NormalizeContentIdempotent | project-knowledge-manager/scripts/update_cloudy.py:40-41 | normalising twice is normalising once |
| SectionPatch.SpacerIffLineAboveNotBlank | project-knowledge-manager/scripts/update_cloudy.py:39-47 | a blank spacer line is added if and only if the line above is not all whitespace; the content comes last |
| SectionPatch.PatchInsertsOnly | project-knowledge-manager/scripts/update_cloudy.py:39-49 | the patch adds one or two lines, the last being the content, and keeps every other line in order |
| SectionPatch.PatchKeepsHeading | project-knowledge-manager/scripts/update_cloudy.py:20-49 | a patched document still has the same first heading |
| SectionPatch.FirstHeadingAgrees | project-knowledge-manager/scripts/update_cloudy.py:20-21 | two documents that agree up to the first heading have the same first heading |
| SectionPatch.FirstHeadingSplice | project-knowledge-manager/scripts/update_cloudy.py:20-49 | a splice below the first heading leaves it the first heading |
| SectionPatch.SpliceTwice | project-knowledge-manager/scripts/update_cloudy.py:44-49 | after a splice below line k-1 that line is kept, so a second splice there adds the same block again |
| SectionPatch.PatchTwiceUnderHeading | project-knowledge-manager/scripts/update_cloudy.py:17-49 | patching twice under a `"## "` heading stacks two copies of the block below it, so the patch is not idempotent |
| SectionPatch.PatchTwiceDuplicates | project-knowledge-manager/scripts/update_cloudy.py:17-49 | patching twice always adds at least two copies of the normalised content |
| SectionPatch.OrdinalHeadingMatches | project-knowledge-manager/scripts/update_cloudy.py:15-17 | "## 1. 项目规范" matches the section 项目规范 |
| SectionPatch.LongerTitleMatches | project-knowledge-manager/scripts/update_cloudy.py:17 | the title is matched as a prefix, so "## 项目规范扩展" matches too |
| SectionPatch.TabHeadingMatches | project-knowledge-manager/scripts/update_cloudy.py:17 | `\s+` also accepts a tab after `##` |
| SectionPatch.NonHeadingsRejected | project-knowledge-manager/scripts/update_cloudy.py:17 | "### x", "##x" (unless x starts with whitespace) and "text ## x" do not match |
| SectionPatch.NextHeading | project-knowledge-manager/scripts/update_cloudy.py:23-27 | the first `"## "` line at or after j, or the end: no such line lies before it |
| SectionPatch.IntendedInsertIndex | project-knowledge-manager/scripts/update_cloudy.py:23-30 | the intended insertion point lies after the heading |
| SectionPatch.IntendedInsertIndexIsSectionEnd | project-knowledge-manager/scripts/update_cloudy.py:23-37 | the intended insertion point is the one and only index with no `"## "` line between the heading and it, where that index is the next heading or the end |
| SectionPatch.FindSectionEnd | project-knowledge-manager/scripts/update_cloudy.py:19-31 | the loop with `lines[j]` tested yields -1 or the intended insertion point |
| SectionPatch.PatchAtSectionEnd | project-knowledge-manager/scripts/update_cloudy.py:17-49 | the patch with the intended index; a failure names the section; a success adds one or two lines and holds the normalised content |
| SectionPatch.PatchAtSectionEndStaysInSection | project-knowledge-manager/scripts/update_cloudy.py:37-49 | with the intended index the block ends its own section, with the next heading directly after it |
| SectionPatch.InsertIndexAgreesIff | project-knowledge-manager/scripts/update_cloudy.py:24-30 | the code and the intent agree if and only if a `"## "` heading is followed by another or by the end, or a heading without `"## "` has no `"## "` line after it |
| SectionPatch.InsertsAboveOldContent | project-knowledge-manager/scripts/update_cloudy.py:24-27 | for a numbered section with old content the code inserts at 1, above the old content; the intended index is 2 |
| SectionPatch.TabHeadingOverrunsSection | project-knowledge-manager/scripts/update_cloudy.py:24-30 | for a tab heading the code inserts at 2, the end of the next section; the intended index is 1 |

## Left out

- File and console I/O are not modelled. This covers reading the JSON record and the template file, writing the report, reading and writing the Markdown file, the existence checks, the error messages, `sys.exit` and `argparse` (generate_report.py lines 205-236, 253-268; update_cloudy.py lines 8-13, 33-35, 51-63). The template is a string parameter, the record a `Report` value and the document a sequence of lines. The process exit on a missing section is the `SectionNotFound` failure.
- JSON decoding is not modelled. The record is already typed: a value of the wrong JSON type, such as a number where a list is expected, cannot be expressed.
- `datetime.now().strftime('%Y年%m月%d日')` is the parameter `today` of `ScalarValues`, `Rendered` and `GenerateReport`. The clock is outside the model.
- `init_project.py` is a one-shot file copy and is not part of this model.
- The whitespace and indentation inside the f-string markup is not reproduced character for character. The builders take the fixed text as a `Markup` table, and `StandardMarkup` holds the source's text without its indentation. The order in which values are interleaved with the fixed text is kept.
- Unicode decimal digits other than ASCII and full-width ones are not modelled. `\d` in Python's `re` accepts every Unicode decimal digit, but the digit predicate of the heading pattern accepts only these two ranges.
- The regular-expression engine is not modelled. The heading pattern is a predicate over explicit match positions, and the literal match that `re.escape(section)` gives is stated as a prefix test.
- Updating the list of lines in place is not modelled. The document is a value, so the list that slice assignment changes in place is the returned sequence, and aliasing of that list is not captured.
- Render.FragmentTokenRendered: this describes a template that is the placeholder alone. Inside a longer template, the text around a placeholder can join with the value to form another placeholder, which a later replacement then rewrites. So what a known placeholder becomes in the middle of a template is not stated. For unknown keys the general statement is proved (`UnknownTokenKept`).
- Render.ScalarTokenRendered: this describes a template that is the placeholder alone, for the same reason as `FragmentTokenRendered`.
- Render.LastFragmentVerbatim: this describes a template that is the placeholder alone, for the same reason as `FragmentTokenRendered`.
- Render.FragmentTokenInScalarValue: this covers a scalar value that equals a fragment placeholder, not one that only contains it. A value containing a placeholder among other text has the same boundary effect as a longer template.
- A missing `name` in an advisor of `advisors` raises `KeyError` at generate_report.py line 32; the model states this as the precondition `AdvisorNamesPresent` rather than modelling the exception.

## Findings

| source | as written | input that shows it | evidently intended | confidence | as-written member | corrected member |
|---|---|---|---|---|---|---|
| project-knowledge-manager/scripts/update_cloudy.py:24-27 | the inner loop tests `line.startswith('## ')` (the heading itself), so the index is `i + 1` for a `"## "` heading and `len(lines)` otherwise | `["## 1. 项目规范\n", "旧内容\n", "## 2. 下一节\n"]` with section 项目规范 inserts at 1, above the old content; `["##\t项目规范\n", "## 下一节\n"]` inserts at 2, inside the next section | test `lines[j].startswith('## ')` and insert before the next heading or at the end of the file, as the comments at lines 23 and 37 say | high (not executed) | SectionPatch.InsertsAboveOldContent | SectionPatch.IntendedInsertIndexIsSectionEnd |
