/** `generate_html_snippets`: the nine markup fragments built from a report
    record. Each fragment is one block per list element, the element's fields
    placed between fixed markup pieces in the order the f-strings give them,
    and the blocks concatenated in list order. */
module Fragments {
  import opened Wrappers
  import opened Text
  import opened NameRules
  import opened ReportData
  import opened ReportMarkup

  /** The icons the insight cards cycle through. */
  const InsightIcons: seq<string> := ["💡", "🔍", "⚡", "🌟"]

  /** The possessive suffix of a reflection card's heading. */
  const ReflectionSuffix := "的反思"

  // Field defaults
  const DefaultInsightTitle := "洞察"
  const DefaultAdvisorName := "幕僚"
  const DefaultAdvisorTitle := "私董会幕僚"
  const DefaultDeadline := "立即执行"

  /** The names of the fragments, in the order the dictionary receives them. */
  const FragmentKeys: seq<string> := [
    "advisors_html", "problem_background_html", "goals_html", "insights_html",
    "advisor_pages_html", "reflections_html", "action_items_html", "timeline_html",
    "golden_sentences_html"]

  // ---------------------------------------------------------------------------
  // 1. Advisors on the cover page

  function AdvisorEntry(m: Markup, color: string, name: string): string {
    m.advisorA + color + m.advisorB + name + m.advisorC
  }

  /** One chip per advisor, coloured by the advisor's name. */
  function AdvisorsFragment(m: Markup, advisors: seq<Advisor>): (r: string)
    requires Named(advisors)
    ensures |advisors| == 1 ==> r == AdvisorEntry(m, GetColor(advisors[0].name.value), advisors[0].name.value)
  {
    if advisors == [] then ""
    else
      var name := advisors[|advisors| - 1].name.value;
      AdvisorsFragment(m, advisors[..|advisors| - 1]) + AdvisorEntry(m, GetColor(name), name)
  }

  method AdvisorsHtml(m: Markup, advisors: seq<Advisor>) returns (html: string)
    requires Named(advisors)
    ensures html == AdvisorsFragment(m, advisors)
  {
    html := "";
    for i := 0 to |advisors|
      invariant html == AdvisorsFragment(m, advisors[..i])
    {
      var name := advisors[i].name.value;
      var color := GetColor(name);
      assert advisors[..i + 1][..i] == advisors[..i];
      html := html + AdvisorEntry(m, color, name);
    }
    assert advisors[..|advisors|] == advisors;
  }

  /** The cover lists the advisors of two lists one after the other. */
  lemma {:induction false} AdvisorsFragmentAppend(m: Markup, xs: seq<Advisor>, ys: seq<Advisor>)
    requires Named(xs) && Named(ys)
    ensures Named(xs + ys)
    ensures AdvisorsFragment(m, xs + ys) == AdvisorsFragment(m, xs) + AdvisorsFragment(m, ys)
  {
    var zs := xs + ys;
    assert Named(zs) by {
      forall i | 0 <= i < |zs| ensures zs[i].name.Some? {
        if i >= |xs| { assert zs[i] == ys[i - |xs|]; }
      }
    }
    if ys == [] {
      assert zs == xs;
    } else {
      var init := ys[..|ys| - 1];
      assert zs[..|zs| - 1] == xs + init;
      assert zs[|zs| - 1] == ys[|ys| - 1];
      AdvisorsFragmentAppend(m, xs, init);
    }
  }

  // ---------------------------------------------------------------------------
  // 2. Problem background: one paragraph per non-blank line

  /** The paragraph of one line: its stripped text, or nothing when it is blank. */
  function Paragraph(m: Markup, line: string): string {
    var text := Strip(line);
    if text != "" then m.paragraphOpen + text + m.paragraphClose else ""
  }

  function ParagraphOf(m: Markup): string -> string {
    line => Paragraph(m, line)
  }

  /** What `f` makes of each line, joined in order. */
  function JoinMap(f: string -> string, lines: seq<string>): string {
    if lines == [] then ""
    else JoinMap(f, lines[..|lines| - 1]) + f(lines[|lines| - 1])
  }

  lemma {:induction false} JoinMapAppend(f: string -> string, a: seq<string>, b: seq<string>)
    ensures JoinMap(f, a + b) == JoinMap(f, a) + JoinMap(f, b)
  {
    if b == [] {
      assert a + b == a;
    } else {
      var c := a + b;
      assert c[..|c| - 1] == a + b[..|b| - 1];
      JoinMapAppend(f, a, b[..|b| - 1]);
    }
  }

  lemma JoinMapSingle(f: string -> string, line: string)
    ensures JoinMap(f, [line]) == f(line)
  {
    assert [line][..0] == [];
  }

  /** The paragraph of every line that is not blank, in order. */
  function BackgroundFragment(m: Markup, background: string): (r: string)
    ensures AllWs(background) ==> r == ""
  {
    if AllWs(background) then
      SplitBlank(background, '\n');
      BlankLinesNoParagraphs(m, Split(background, '\n'));
      JoinMap(ParagraphOf(m), Split(background, '\n'))
    else
      JoinMap(ParagraphOf(m), Split(background, '\n'))
  }

  /** Lines that are all whitespace give no paragraph. */
  lemma {:induction false} BlankLinesNoParagraphs(m: Markup, lines: seq<string>)
    requires forall k :: 0 <= k < |lines| ==> AllWs(lines[k])
    ensures JoinMap(ParagraphOf(m), lines) == ""
  {
    if lines != [] {
      var init := lines[..|lines| - 1];
      assert forall k :: 0 <= k < |init| ==> init[k] == lines[k];
      BlankLinesNoParagraphs(m, init);
      assert Strip(lines[|lines| - 1]) == "";
    }
  }

  /** Text on either side of a line break is paragraphed separately and the
      paragraphs keep the order of the text. */
  lemma BackgroundAppend(m: Markup, a: string, b: string)
    ensures BackgroundFragment(m, a + "\n" + b) == BackgroundFragment(m, a) + BackgroundFragment(m, b)
  {
    assert a + "\n" + b == a + ['\n'] + b;
    SplitAtSeparator(a, b, '\n');
    JoinMapAppend(ParagraphOf(m), Split(a, '\n'), Split(b, '\n'));
  }

  /** A single line is one paragraph of its stripped text, or nothing when
      it is blank. */
  lemma BackgroundLine(m: Markup, line: string)
    requires '\n' !in line
    ensures AllWs(line) ==> BackgroundFragment(m, line) == ""
    ensures !AllWs(line) ==> BackgroundFragment(m, line) == m.paragraphOpen + Strip(line) + m.paragraphClose
  {
    assert BackgroundFragment(m, line) == Paragraph(m, line) by {
      SplitFree(line, '\n');
      JoinMapSingle(ParagraphOf(m), line);
    }
  }

  // ---------------------------------------------------------------------------
  // 3. Goals

  function GoalEntry(m: Markup, goal: string): string {
    m.goalA + goal + m.goalB
  }

  /** One list item per goal. */
  function GoalsFragment(m: Markup, goals: seq<string>): (r: string)
    ensures |goals| == 1 ==> r == GoalEntry(m, goals[0])
  {
    if goals == [] then ""
    else GoalsFragment(m, goals[..|goals| - 1]) + GoalEntry(m, goals[|goals| - 1])
  }

  method GoalsHtml(m: Markup, goals: seq<string>) returns (html: string)
    ensures html == GoalsFragment(m, goals)
  {
    html := "";
    for i := 0 to |goals|
      invariant html == GoalsFragment(m, goals[..i])
    {
      assert goals[..i + 1][..i] == goals[..i];
      html := html + GoalEntry(m, goals[i]);
    }
    assert goals[..|goals|] == goals;
  }

  /** The goals of two lists are listed one after the other. */
  lemma {:induction false} GoalsFragmentAppend(m: Markup, xs: seq<string>, ys: seq<string>)
    ensures GoalsFragment(m, xs + ys) == GoalsFragment(m, xs) + GoalsFragment(m, ys)
  {
    if ys == [] {
      assert xs + ys == xs;
    } else {
      var zs := xs + ys;
      assert zs[..|zs| - 1] == xs + ys[..|ys| - 1];
      GoalsFragmentAppend(m, xs, ys[..|ys| - 1]);
    }
  }

  // ---------------------------------------------------------------------------
  // 4. Key insights, with rotating icons

  function InsightIcon(i: nat): string {
    InsightIcons[i % |InsightIcons|]
  }

  function InsightEntry(m: Markup, icon: string, title: string, content: string): string {
    m.insightA + icon + m.insightB + title + m.insightC + content + m.insightD
  }

  /** The card of the insight at position `i`. */
  function InsightBlock(m: Markup, i: nat, insight: Insight): string {
    InsightEntry(m, InsightIcon(i), insight.title.GetOr(DefaultInsightTitle), insight.content.GetOr(""))
  }

  /** One card per insight, each with the icon of its position. */
  function InsightsFragment(m: Markup, insights: seq<Insight>): (r: string)
    ensures |insights| == 1 ==> r == InsightBlock(m, 0, insights[0])
  {
    if insights == [] then ""
    else
      var last := |insights| - 1;
      InsightsFragment(m, insights[..last]) + InsightBlock(m, last, insights[last])
  }

  method InsightsHtml(m: Markup, insights: seq<Insight>) returns (html: string)
    ensures html == InsightsFragment(m, insights)
  {
    html := "";
    var icons := InsightIcons;
    for i := 0 to |insights|
      invariant html == InsightsFragment(m, insights[..i])
    {
      var icon := icons[i % |icons|];
      var insight := insights[i];
      assert insights[..i + 1][..i] == insights[..i];
      html := html + InsightEntry(m, icon, insight.title.GetOr(DefaultInsightTitle), insight.content.GetOr(""));
    }
    assert insights[..|insights|] == insights;
  }

  /** Icons repeat every four cards and two neighbouring cards never share one. */
  lemma InsightIconsRotate(i: nat)
    ensures InsightIcon(i + 4) == InsightIcon(i)
    ensures InsightIcon(i + 1) != InsightIcon(i)
  {
    var k := i % 4;
    assert (i + 1) % 4 == if k == 3 then 0 else k + 1;
    assert (i + 4) % 4 == k;
  }

  /** An insight without a title is shown under the title 洞察, one without
      content with empty content. */
  lemma InsightDefaults(m: Markup, i: nat, title: Option<string>, content: Option<string>)
    ensures InsightBlock(m, i, Insight(None, content)) == InsightBlock(m, i, Insight(Some("洞察"), content))
    ensures InsightBlock(m, i, Insight(title, None)) == InsightBlock(m, i, Insight(title, Some("")))
  {
  }

  // ---------------------------------------------------------------------------
  // 5. Advisor pages, each with its numbered suggestions

  function SuggestionEntry(m: Markup, color: string, number: nat, text: string): string {
    m.suggestionA + color + m.suggestionB + Decimal(number) + m.suggestionC + text + m.suggestionD
  }

  /** One numbered item per suggestion: the suggestion at position `i`
      wears the badge `i + 1`. */
  function SuggestionsFragment(m: Markup, color: string, suggestions: seq<string>): string {
    if suggestions == [] then ""
    else
      var last := |suggestions| - 1;
      SuggestionsFragment(m, color, suggestions[..last]) + SuggestionEntry(m, color, last + 1, suggestions[last])
  }

  method SuggestionsHtml(m: Markup, color: string, suggestions: seq<string>) returns (html: string)
    ensures html == SuggestionsFragment(m, color, suggestions)
  {
    html := "";
    for i := 0 to |suggestions|
      invariant html == SuggestionsFragment(m, color, suggestions[..i])
    {
      assert suggestions[..i + 1][..i] == suggestions[..i];
      html := html + SuggestionEntry(m, color, i + 1, suggestions[i]);
    }
    assert suggestions[..|suggestions|] == suggestions;
  }

  /** Badges read back as 1, 2, … in list order, so no two are alike. */
  lemma SuggestionBadges(i: nat, j: nat)
    ensures ParseDecimal(Decimal(i + 1)) == i + 1
    ensures i != j ==> Decimal(i + 1) != Decimal(j + 1)
  {
    DecimalRoundTrip(i + 1);
    DecimalRoundTrip(j + 1);
  }

  function AdvisorPage(m: Markup, name: string, color: string, icon: string, title: string,
                       quote: string, definition: string, experience: string,
                       suggestions: string): string
  {
    m.pageA + name + m.pageB + color + m.pageC + color + m.pageD + icon + m.pageE + name
    + m.pageF + title + m.pageG + color + m.pageH + color + m.pageI + quote + m.pageJ + color
    + m.pageK + definition + m.pageL + experience + m.pageM + color + m.pageN + suggestions
    + m.pageO
  }

  /** The page of one advisor: colour and icon come from the name, the
      suggestions are numbered in that colour. */
  function AdvisorPageBlock(m: Markup, advisor: AdvisorSuggestion): string {
    var name := advisor.name.GetOr(DefaultAdvisorName);
    var color := GetColor(name);
    AdvisorPage(m, name, color, GetIcon(name), advisor.title.GetOr(DefaultAdvisorTitle),
                advisor.quote.GetOr(""), advisor.definition.GetOr(""), advisor.experience.GetOr(""),
                SuggestionsFragment(m, color, advisor.suggestions.GetOr([])))
  }

  function AdvisorPagesFragment(m: Markup, advisors: seq<AdvisorSuggestion>): (r: string)
    ensures |advisors| == 1 ==> r == AdvisorPageBlock(m, advisors[0])
  {
    if advisors == [] then ""
    else
      var init := advisors[..|advisors| - 1];
      assert |advisors| == 1 ==> AdvisorPagesFragment(m, init) == "" by {
        if |advisors| == 1 {
          assert init == [];
        }
      }
      AdvisorPagesFragment(m, init) + AdvisorPageBlock(m, advisors[|advisors| - 1])
  }

  method AdvisorPagesHtml(m: Markup, advisors: seq<AdvisorSuggestion>) returns (html: string)
    ensures html == AdvisorPagesFragment(m, advisors)
  {
    html := "";
    for k := 0 to |advisors|
      invariant html == AdvisorPagesFragment(m, advisors[..k])
    {
      var advisor := advisors[k];
      var name := advisor.name.GetOr(DefaultAdvisorName);
      var color := GetColor(name);
      var icon := GetIcon(name);
      var title := advisor.title.GetOr(DefaultAdvisorTitle);
      var suggestionsHtml := SuggestionsHtml(m, color, advisor.suggestions.GetOr([]));
      var page := AdvisorPage(m, name, color, icon, title, advisor.quote.GetOr(""),
                              advisor.definition.GetOr(""), advisor.experience.GetOr(""),
                              suggestionsHtml);
      assert page == AdvisorPageBlock(m, advisors[k]);
      AdvisorPagesStep(m, advisors, k);
      html := html + page;
    }
    assert advisors[..|advisors|] == advisors;
  }

  lemma AdvisorPagesStep(m: Markup, advisors: seq<AdvisorSuggestion>, k: nat)
    requires k < |advisors|
    ensures AdvisorPagesFragment(m, advisors[..k + 1]) == AdvisorPagesFragment(m, advisors[..k]) + AdvisorPageBlock(m, advisors[k])
  {
    assert advisors[..k + 1][..k] == advisors[..k];
  }

  /** A page without a name is headed 幕僚 and one without a title is
      subtitled 私董会幕僚, whatever the other fields hold. */
  lemma AdvisorPageDefaults(m: Markup, name: Option<string>, title: Option<string>, quote: Option<string>,
                            definition: Option<string>, experience: Option<string>, suggestions: Option<seq<string>>)
    ensures AdvisorPageBlock(m, AdvisorSuggestion(None, title, quote, definition, experience, suggestions))
         == AdvisorPageBlock(m, AdvisorSuggestion(Some("幕僚"), title, quote, definition, experience, suggestions))
    ensures AdvisorPageBlock(m, AdvisorSuggestion(name, None, quote, definition, experience, suggestions))
         == AdvisorPageBlock(m, AdvisorSuggestion(name, Some("私董会幕僚"), quote, definition, experience, suggestions))
  {
  }

  /** Absent text on a page reads as empty text and an absent list of
      suggestions as the empty list, whatever the other fields hold. */
  lemma AdvisorPageBodyDefaults(m: Markup, name: Option<string>, title: Option<string>, quote: Option<string>,
                                definition: Option<string>, experience: Option<string>, suggestions: Option<seq<string>>)
    ensures AdvisorPageBlock(m, AdvisorSuggestion(name, title, None, definition, experience, suggestions))
         == AdvisorPageBlock(m, AdvisorSuggestion(name, title, Some(""), definition, experience, suggestions))
    ensures AdvisorPageBlock(m, AdvisorSuggestion(name, title, quote, None, experience, suggestions))
         == AdvisorPageBlock(m, AdvisorSuggestion(name, title, quote, Some(""), experience, suggestions))
    ensures AdvisorPageBlock(m, AdvisorSuggestion(name, title, quote, definition, None, suggestions))
         == AdvisorPageBlock(m, AdvisorSuggestion(name, title, quote, definition, Some(""), suggestions))
    ensures AdvisorPageBlock(m, AdvisorSuggestion(name, title, quote, definition, experience, None))
         == AdvisorPageBlock(m, AdvisorSuggestion(name, title, quote, definition, experience, Some([])))
  {
  }

  // ---------------------------------------------------------------------------
  // 6. Reflections

  /** The card body: each line break of the content becomes `<br>`. */
  function ReflectionBody(content: string): string {
    ReplaceAll(content, "\n", "<br>")
  }

  function ReflectionEntry(m: Markup, color: string, name: string, body: string): string {
    m.reflectionA + color + m.reflectionB + name + ReflectionSuffix + m.reflectionC + body + m.reflectionD
  }

  /** The card of one reflection, coloured by the speaker's name. */
  function ReflectionBlock(m: Markup, reflection: Reflection): string {
    var name := reflection.name.GetOr("");
    ReflectionEntry(m, GetColor(name), name, ReflectionBody(reflection.content.GetOr("")))
  }

  function ReflectionsFragment(m: Markup, reflections: seq<Reflection>): (r: string)
    ensures |reflections| == 1 ==> r == ReflectionBlock(m, reflections[0])
  {
    if reflections == [] then ""
    else ReflectionsFragment(m, reflections[..|reflections| - 1]) + ReflectionBlock(m, reflections[|reflections| - 1])
  }

  method ReflectionsHtml(m: Markup, reflections: seq<Reflection>) returns (html: string)
    ensures html == ReflectionsFragment(m, reflections)
  {
    html := "";
    for i := 0 to |reflections|
      invariant html == ReflectionsFragment(m, reflections[..i])
    {
      var reflection := reflections[i];
      var name := reflection.name.GetOr("");
      var color := GetColor(name);
      assert reflections[..i + 1][..i] == reflections[..i];
      html := html + ReflectionEntry(m, color, name, ReplaceAll(reflection.content.GetOr(""), "\n", "<br>"));
    }
    assert reflections[..|reflections|] == reflections;
  }

  /** No line break of the content survives in the card body, and content
      without line breaks is shown as it is. */
  lemma ReflectionBodyBreaks(content: string)
    ensures '\n' !in ReflectionBody(content)
    ensures '\n' !in content ==> ReflectionBody(content) == content
  {
    ReplaceAllRemovesChar(content, '\n', "<br>");
    if '\n' !in content {
      assert !Occurs("\n", content) by {
        forall i | 0 <= i <= |content| - 1 ensures !OccursAt("\n", content, i) {
          assert content[i] != '\n';
        }
      }
      ReplaceAllAbsent(content, "\n", "<br>");
    }
  }

  /** The card's heading is the name followed by the possessive suffix. */
  lemma ReflectionHeading(m: Markup, reflection: Reflection)
    ensures Occurs(reflection.name.GetOr("") + ReflectionSuffix, ReflectionBlock(m, reflection))
  {
    var name := reflection.name.GetOr("");
    var head := m.reflectionA + GetColor(name) + m.reflectionB;
    var heading := name + ReflectionSuffix;
    var body := ReflectionBody(reflection.content.GetOr(""));
    OccursAtEnd(head, heading);
    AppendAssoc(head, name, ReflectionSuffix);
    OccursExtend(heading, head + name + ReflectionSuffix, m.reflectionC, |head|);
    OccursExtend(heading, head + name + ReflectionSuffix + m.reflectionC, body, |head|);
    OccursExtend(heading, head + name + ReflectionSuffix + m.reflectionC + body, m.reflectionD, |head|);
  }

  // ---------------------------------------------------------------------------
  // 7 and 8. Action items and timeline: the same checklist row

  function ChecklistRow(m: Markup, text: string, due: string): string {
    m.rowA + text + m.rowB + due + m.rowC
  }

  function ActionItemBlock(m: Markup, item: ActionItem): string {
    ChecklistRow(m, item.item.GetOr(""), item.deadline.GetOr(DefaultDeadline))
  }

  function ActionItemsFragment(m: Markup, items: seq<ActionItem>): (r: string)
    ensures |items| == 1 ==> r == ActionItemBlock(m, items[0])
  {
    if items == [] then ""
    else ActionItemsFragment(m, items[..|items| - 1]) + ActionItemBlock(m, items[|items| - 1])
  }

  method ActionItemsHtml(m: Markup, items: seq<ActionItem>) returns (html: string)
    ensures html == ActionItemsFragment(m, items)
  {
    html := "";
    for i := 0 to |items|
      invariant html == ActionItemsFragment(m, items[..i])
    {
      assert items[..i + 1][..i] == items[..i];
      html := html + ChecklistRow(m, items[i].item.GetOr(""), items[i].deadline.GetOr(DefaultDeadline));
    }
    assert items[..|items|] == items;
  }

  function TimelineBlock(m: Markup, entry: TimelineEntry): string {
    ChecklistRow(m, entry.milestone.GetOr(""), entry.date.GetOr(""))
  }

  function TimelineFragment(m: Markup, entries: seq<TimelineEntry>): (r: string)
    ensures |entries| == 1 ==> r == TimelineBlock(m, entries[0])
  {
    if entries == [] then ""
    else TimelineFragment(m, entries[..|entries| - 1]) + TimelineBlock(m, entries[|entries| - 1])
  }

  method TimelineHtml(m: Markup, entries: seq<TimelineEntry>) returns (html: string)
    ensures html == TimelineFragment(m, entries)
  {
    html := "";
    for i := 0 to |entries|
      invariant html == TimelineFragment(m, entries[..i])
    {
      assert entries[..i + 1][..i] == entries[..i];
      html := html + ChecklistRow(m, entries[i].milestone.GetOr(""), entries[i].date.GetOr(""));
    }
    assert entries[..|entries|] == entries;
  }

  /** An action item without a deadline is due 立即执行; a milestone without
      a date shows an empty date. */
  lemma ChecklistDefaults(m: Markup, item: Option<string>, milestone: Option<string>)
    ensures ActionItemBlock(m, ActionItem(item, None)) == ActionItemBlock(m, ActionItem(item, Some("立即执行")))
    ensures TimelineBlock(m, TimelineEntry(milestone, None)) == TimelineBlock(m, TimelineEntry(milestone, Some("")))
  {
  }

  // ---------------------------------------------------------------------------
  // 9. Golden sentences

  function GoldenEntry(m: Markup, sentence: string, color: string, name: string): string {
    m.goldenA + sentence + m.goldenB + color + m.goldenC + color + m.goldenD + name + m.goldenE
  }

  /** The quote card of one sentence, coloured by the advisor who said it. */
  function GoldenBlock(m: Markup, item: GoldenSentence): string {
    var name := item.advisor.GetOr("");
    GoldenEntry(m, item.sentence.GetOr(""), GetColor(name), name)
  }

  function GoldenSentencesFragment(m: Markup, items: seq<GoldenSentence>): (r: string)
    ensures |items| == 1 ==> r == GoldenBlock(m, items[0])
  {
    if items == [] then ""
    else GoldenSentencesFragment(m, items[..|items| - 1]) + GoldenBlock(m, items[|items| - 1])
  }

  method GoldenSentencesHtml(m: Markup, items: seq<GoldenSentence>) returns (html: string)
    ensures html == GoldenSentencesFragment(m, items)
  {
    html := "";
    for i := 0 to |items|
      invariant html == GoldenSentencesFragment(m, items[..i])
    {
      var item := items[i];
      var name := item.advisor.GetOr("");
      var color := GetColor(name);
      assert items[..i + 1][..i] == items[..i];
      html := html + GoldenEntry(m, item.sentence.GetOr(""), color, name);
    }
    assert items[..|items|] == items;
  }

  // ---------------------------------------------------------------------------
  // The nine fragments together

  /** The html of the nine fragments, in the order the dictionary receives them. */
  function FragmentHtml(m: Markup, data: Report): (html: seq<string>)
    requires AdvisorNamesPresent(data)
    ensures |html| == |FragmentKeys|
  {
    var overview := Overview(data);
    var plan := Plan(data);
    [ AdvisorsFragment(m, data.advisors.GetOr([])),
      BackgroundFragment(m, overview.background.GetOr("")),
      GoalsFragment(m, overview.goals.GetOr([])),
      InsightsFragment(m, data.keyInsights.GetOr([])),
      AdvisorPagesFragment(m, data.advisorSuggestions.GetOr([])),
      ReflectionsFragment(m, data.reflections.GetOr([])),
      ActionItemsFragment(m, plan.actionItems.GetOr([])),
      TimelineFragment(m, plan.timeline.GetOr([])),
      GoldenSentencesFragment(m, data.goldenSentences.GetOr([])) ]
  }

  /** Each key paired with its html. */
  function Keyed(html: seq<string>): (r: seq<(string, string)>)
    requires |html| == |FragmentKeys|
    ensures |r| == |FragmentKeys|
    ensures forall i :: 0 <= i < |r| ==> r[i] == (FragmentKeys[i], html[i])
  {
    seq(|FragmentKeys|, i requires 0 <= i < |FragmentKeys| => (FragmentKeys[i], html[i]))
  }

  /** The fragments of a record, keyed and in insertion order. */
  function Snippets(m: Markup, data: Report): (r: seq<(string, string)>)
    requires AdvisorNamesPresent(data)
    ensures |r| == |FragmentKeys|
    ensures forall i :: 0 <= i < |r| ==> r[i].0 == FragmentKeys[i]
  {
    Keyed(FragmentHtml(m, data))
  }

  /** `generate_html_snippets`: the dictionary is filled one key at a time,
      each list through its own loop. */
  method GenerateHtmlSnippets(m: Markup, data: Report) returns (snippets: seq<(string, string)>)
    requires AdvisorNamesPresent(data)
    ensures snippets == Snippets(m, data)
  {
    var overview := Overview(data);
    var plan := Plan(data);
    var advisorsHtml := AdvisorsHtml(m, data.advisors.GetOr([]));
    var backgroundHtml := BackgroundFragment(m, overview.background.GetOr(""));
    var goalsHtml := GoalsHtml(m, overview.goals.GetOr([]));
    var insightsHtml := InsightsHtml(m, data.keyInsights.GetOr([]));
    var pagesHtml := AdvisorPagesHtml(m, data.advisorSuggestions.GetOr([]));
    var reflectionsHtml := ReflectionsHtml(m, data.reflections.GetOr([]));
    var itemsHtml := ActionItemsHtml(m, plan.actionItems.GetOr([]));
    var timelineHtml := TimelineHtml(m, plan.timeline.GetOr([]));
    var goldenHtml := GoldenSentencesHtml(m, data.goldenSentences.GetOr([]));
    var html := [
      advisorsHtml, backgroundHtml, goalsHtml, insightsHtml, pagesHtml,
      reflectionsHtml, itemsHtml, timelineHtml, goldenHtml];
    assert html == FragmentHtml(m, data);
    snippets := Keyed(html);
  }

  /** The nine keys are distinct, whatever the record holds. */
  lemma FragmentKeysDistinct(i: nat, j: nat)
    requires i < j < |FragmentKeys|
    ensures FragmentKeys[i] != FragmentKeys[j]
  {
    var keys := FragmentKeys;
    assert |keys[i]| != |keys[j]| || keys[i][0] != keys[j][0];
  }

  /** A record without any list gets nine empty fragments. */
  lemma EmptyReportSnippets(m: Markup, data: Report)
    requires data.advisors.None? && data.problemOverview.None? && data.keyInsights.None?
    requires data.advisorSuggestions.None? && data.reflections.None?
    requires data.actionPlan.None? && data.goldenSentences.None?
    ensures AdvisorNamesPresent(data)
    ensures forall i :: 0 <= i < |Snippets(m, data)| ==> Snippets(m, data)[i].1 == ""
  {
    EmptyRecordHtml(m, data);
  }

  lemma EmptyRecordHtml(m: Markup, data: Report)
    requires data.advisors.None? && data.problemOverview.None? && data.keyInsights.None?
    requires data.advisorSuggestions.None? && data.reflections.None?
    requires data.actionPlan.None? && data.goldenSentences.None?
    requires AdvisorNamesPresent(data)
    ensures forall i :: 0 <= i < |FragmentHtml(m, data)| ==> FragmentHtml(m, data)[i] == ""
  {
    var html := FragmentHtml(m, data);
    assert html == [
      AdvisorsFragment(m, []), BackgroundFragment(m, ""), GoalsFragment(m, []),
      InsightsFragment(m, []), AdvisorPagesFragment(m, []), ReflectionsFragment(m, []),
      ActionItemsFragment(m, []), TimelineFragment(m, []), GoldenSentencesFragment(m, [])];
    EmptyFragments(m);
    NineEmpty(html);
  }

  lemma EmptyFragments(m: Markup)
    ensures AdvisorsFragment(m, []) == "" && BackgroundFragment(m, "") == "" && GoalsFragment(m, []) == ""
    ensures InsightsFragment(m, []) == "" && AdvisorPagesFragment(m, []) == "" && ReflectionsFragment(m, []) == ""
    ensures ActionItemsFragment(m, []) == "" && TimelineFragment(m, []) == "" && GoldenSentencesFragment(m, []) == ""
  {
    assert Paragraph(m, "") == "" by {
      assert AllWs("");
    }
  }

  lemma NineEmpty(html: seq<string>)
    requires |html| == 9
    requires html[0] == "" && html[1] == "" && html[2] == "" && html[3] == "" && html[4] == ""
    requires html[5] == "" && html[6] == "" && html[7] == "" && html[8] == ""
    ensures forall i :: 0 <= i < |html| ==> html[i] == ""
  {
  }
}
