/**
 * process_github_data.py: the contribution summary shown on the overview
 * page, the per-year analysis used by the predictions page, and the
 * language histogram with colours.
 */
module ProcessGithubData {
  import opened Wrappers
  import opened Util
  import opened Calendar
  import opened Languages

  /**
   * The dictionary `process_contribution_data` returns. `Fallback` is the
   * zeroed dictionary of the error path: every total, the highest
   * contribution and both streaks 0, `days` empty, and no
   * `highest_contribution_date`, `today_commits` or `active_days` key.
   */
  datatype ContributionSummary =
    | Summary(totalContributions: int, publicContributions: int, privateContributions: int,
              highestContribution: int, highestContributionDate: Option<LongDate>,
              todayCommits: int, currentStreak: nat, longestStreak: nat, activeDays: nat,
              days: seq<Day>)
    | Fallback

  /**
   * process_contribution_data, with the current date as a parameter. A
   * response without the calendar (a key missing or null), or with a day lacking its `date` or
   * `contributionCount`, ends in the zeroed fallback: the active-day and
   * today's-commits comprehensions index both keys of every day outside the
   * inner handlers.
   */
  method ProcessContributionData(response: Response, today: Date) returns (r: ContributionSummary)
    ensures r.Fallback? <==> !(response.ContributionCalendar? && IsComplete(Flatten(response.weeks)))
    ensures r.Summary? ==> (
      response.ContributionCalendar? &&
      var days := Flatten(response.weeks);
      var counts := Counts(days);
      && r.days == days
      && r.publicContributions == response.totalContributions.GetOr(0)
      && r.privateContributions == response.restrictedContributionsCount.GetOr(0)
      && r.totalContributions == r.publicContributions + r.privateContributions
      && (days == [] ==> r.highestContribution == 0 && r.highestContributionDate == None)
      && (days != [] ==>
            var k := HighestIndex(counts);
            r.highestContribution == counts[k] && r.highestContributionDate == Some(FormatDateDdMmYyyy(days[k].date.value)))
      && r.currentStreak == TrailingRun(counts)
      && r.longestStreak == LongestRun(counts)
      && r.activeDays == |ActiveDates(days)|
      && r.todayCommits == CommitsOn(days, today))
    ensures r.Summary? ==>
      && r.currentStreak <= r.longestStreak
      && r.activeDays <= |r.days|
      && (forall i :: 0 <= i < |r.days| ==> r.days[i].contributionCount.value <= r.highestContribution)
  {
    if !response.ContributionCalendar? {
      return Fallback;
    }
    var days := Flatten(response.weeks);
    var publicContributions := response.totalContributions.GetOr(0);
    var privateContributions := response.restrictedContributionsCount.GetOr(0);
    var totalContributions := publicContributions + privateContributions;
    if !IsComplete(days) {
      return Fallback;
    }
    var counts := Counts(days);

    var highestContribution: int, highestContributionDate: Option<LongDate>;
    if days == [] {
      highestContribution, highestContributionDate := 0, None;
    } else {
      var k := HighestIndex(counts);
      highestContribution := counts[k];
      highestContributionDate := Some(FormatDateDdMmYyyy(days[k].date.value));
    }

    var currentStreak, longestStreak := ScanStreaks(counts);

    var activeDays := |ActiveDates(days)|;
    ActiveDatesBound(days);

    var todayCommits := CommitsOn(days, today);

    r := Summary(totalContributions, publicContributions, privateContributions,
                 highestContribution, highestContributionDate, todayCommits,
                 currentStreak, longestStreak, activeDays, days);
  }

  /** What `analyze_contributions` returns: None, an `{"errors": ...}` dictionary, or the insights. */
  datatype Analysis =
    | NoInput
    | Errors
    | Insights(totalContributions: int, totalDays: nat, activeDays: nat, contributionRate: real)

  /**
   * analyze_contributions: totals, day counts and the contributions per day.
   * A falsy input gives None; a missing key, a null on the path to the
   * weeks, a day without a count, or a calendar without days (division by
   * zero) gives the errors dictionary.
   */
  function AnalyzeContributions(response: Response): (r: Analysis)
    ensures r.NoInput? <==> response.Null? || response.EmptyObject?
    ensures r.Errors? <==>
      || response.MissingKeys?
      || response.NullOnPath?
      || (response.ContributionCalendar? &&
          (!HasCounts(Flatten(response.weeks)) || Flatten(response.weeks) == []))
    ensures r.Insights? ==> (
      response.ContributionCalendar? &&
      var days := Flatten(response.weeks);
      && HasCounts(days)
      && r.totalDays == |days| > 0
      && r.totalContributions == Sum(Counts(days))
      && r.activeDays == CountPositive(Counts(days))
      && r.activeDays <= r.totalDays
      && r.contributionRate * (r.totalDays as real) == r.totalContributions as real)
  {
    match response
    case Null => NoInput
    case EmptyObject => NoInput
    case MissingKeys => Errors
    case NullOnPath => Errors
    case ContributionCalendar(weeks, _, _) =>
      var days := Flatten(weeks);
      if !HasCounts(days) then Errors
      else
        var counts := Counts(days);
        var totalDays := |days|;
        if totalDays == 0 then Errors
        else
          var rate := Sum(counts) as real / totalDays as real;
          QuotientTimesDivisor(Sum(counts) as real, totalDays as real);
          Insights(Sum(counts), totalDays, CountPositive(counts), rate)
  }

  /** A true-division quotient multiplied back by its non-zero divisor gives the dividend. */
  lemma QuotientTimesDivisor(x: real, y: real)
    requires y != 0.0
    ensures x / y * y == x
  {
  }

  /**
   * On a calendar whose dates do not repeat, the active days of the analysis
   * (positive days) and of the summary (distinct active dates) agree.
   */
  lemma ActiveDayCountsAgree(response: Response)
    requires response.ContributionCalendar?
    requires var days := Flatten(response.weeks); days != [] && IsComplete(days) && DistinctDates(days)
    ensures AnalyzeContributions(response).activeDays == |ActiveDates(Flatten(response.weeks))|
  {
    ActiveDatesDistinct(Flatten(response.weeks));
  }

  /** One language's entry: its repository count and its colour (None for a null colour). */
  datatype LanguageEntry = LanguageEntry(count: nat, color: Option<string>)

  /** The table process_language_data builds: each language's count and first colour. */
  function LanguageTable(edges: seq<Edge>): map<string, LanguageEntry> {
    map name | name in LanguageNames(edges) :: LanguageEntry(LanguageCount(edges, name), FirstColor(edges, name))
  }

  /**
   * Extending the repository list by one edge with a language creates that
   * language's entry with count 1 and the edge's colour, or increments its
   * count and keeps its colour; every other entry is unchanged.
   */
  lemma LanguageTableStep(edges: seq<Edge>, e: Edge)
    requires e.Repository? && e.primaryLanguage.Some?
    ensures var l, t := e.primaryLanguage.value.name, LanguageTable(edges);
      LanguageTable(edges + [e]) ==
        if l in t then t[l := t[l].(count := t[l].count + 1)]
        else t[l := LanguageEntry(1, StoredColor(e.primaryLanguage.value))]
  {
    var s := edges + [e];
    assert s[..|s| - 1] == edges;
    LanguageNamesMembership(edges, e.primaryLanguage.value.name);
  }

  /**
   * The table counts exactly what the plain histogram counts, so its counts
   * also add up to the number of repositories that have a language.
   */
  lemma LanguageTableCounts(edges: seq<Edge>)
    ensures LanguageTable(edges).Keys == CountsMap(edges).Keys
    ensures forall name :: name in LanguageTable(edges) ==> LanguageTable(edges)[name].count == CountsMap(edges)[name]
    ensures MapSum(CountsMap(edges)) == WithLanguage(edges)
  {
    CountsSumToLanguageRepositories(edges);
  }

  /**
   * process_language_data: the number of repositories per primary language,
   * with the colour of the first repository seen; repositories without a
   * language are skipped, and any missing key gives None.
   */
  method ProcessLanguageData(response: RepositoriesResponse) returns (r: Option<map<string, LanguageEntry>>)
    ensures r.None? <==> response.MissingRepositories? || !WellFormedEdges(response.edges)
    ensures r.Some? ==>
      && r.value.Keys == LanguageNames(response.edges)
      && forall name :: name in r.value ==>
           r.value[name] == LanguageEntry(LanguageCount(response.edges, name), FirstColor(response.edges, name))
    ensures r.Some? ==> r.value == LanguageTable(response.edges)
  {
    if response.MissingRepositories? {
      return None;
    }
    var edges := response.edges;
    var languageData: map<string, LanguageEntry> := map[];
    for i := 0 to |edges|
      invariant WellFormedEdges(edges[..i])
      invariant languageData == LanguageTable(edges[..i])
    {
      assert edges[..i + 1] == edges[..i] + [edges[i]];
      var edge := edges[i];
      if edge.MalformedEdge? {
        return None;
      }
      if edge.primaryLanguage.Some? {
        var language := edge.primaryLanguage.value.name;
        var color := StoredColor(edge.primaryLanguage.value);
        LanguageTableStep(edges[..i], edge);
        if language !in languageData {
          languageData := languageData[language := LanguageEntry(0, color)];
        }
        languageData := languageData[language := languageData[language].(count := languageData[language].count + 1)];
      }
    }
    assert edges[..|edges|] == edges;
    return Some(languageData);
  }
}
