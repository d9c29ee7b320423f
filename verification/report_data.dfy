/** The structured record the report generator reads. Every key of the
    decoded JSON object may be absent, which `Option` records; the accessors
    below supply the fallbacks `data.get(key, {})` and `data.get(key, [])`. */
module ReportData {
  import opened Wrappers

  datatype Advisor = Advisor(name: Option<string>)

  datatype ProblemOverview = ProblemOverview(
    background: Option<string>,
    goals: Option<seq<string>>,
    quote: Option<string>)

  datatype Insight = Insight(title: Option<string>, content: Option<string>)

  datatype AdvisorSuggestion = AdvisorSuggestion(
    name: Option<string>,
    title: Option<string>,
    quote: Option<string>,
    definition: Option<string>,
    experience: Option<string>,
    suggestions: Option<seq<string>>)

  datatype Reflection = Reflection(name: Option<string>, content: Option<string>)

  datatype ActionItem = ActionItem(item: Option<string>, deadline: Option<string>)

  datatype TimelineEntry = TimelineEntry(milestone: Option<string>, date: Option<string>)

  datatype ActionPlan = ActionPlan(
    actionItems: Option<seq<ActionItem>>,
    timeline: Option<seq<TimelineEntry>>,
    coreTakeaway: Option<string>)

  datatype GoldenSentence = GoldenSentence(advisor: Option<string>, sentence: Option<string>)

  datatype Report = Report(
    topic: Option<string>,
    subTopic: Option<string>,
    date: Option<string>,
    userName: Option<string>,
    closingMessage: Option<string>,
    advisors: Option<seq<Advisor>>,
    problemOverview: Option<ProblemOverview>,
    keyInsights: Option<seq<Insight>>,
    advisorSuggestions: Option<seq<AdvisorSuggestion>>,
    reflections: Option<seq<Reflection>>,
    actionPlan: Option<ActionPlan>,
    goldenSentences: Option<seq<GoldenSentence>>)

  /** `data.get('problem_overview', {})`. */
  function Overview(data: Report): ProblemOverview {
    data.problemOverview.GetOr(ProblemOverview(None, None, None))
  }

  /** `data.get('action_plan', {})`. */
  function Plan(data: Report): ActionPlan {
    data.actionPlan.GetOr(ActionPlan(None, None, None))
  }

  /** Every advisor carries a name. */
  predicate Named(advisors: seq<Advisor>) {
    forall i :: 0 <= i < |advisors| ==> advisors[i].name.Some?
  }

  /** What the advisors loop needs: `advisor['name']` is read without a
      fallback, so a missing name raises `KeyError`. */
  predicate AdvisorNamesPresent(data: Report) {
    Named(data.advisors.GetOr([]))
  }
}
