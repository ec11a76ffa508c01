/**
 * github_stats.py, the older processor: streaks, the highest count and the
 * calendar total, and a language histogram of plain counts. Only `KeyError`
 * is caught here, so some malformed inputs raise instead of degrading.
 */
module GithubStats {
  import opened Wrappers
  import opened Calendar
  import opened Languages

  /**
   * What `process_contribution_data` produces: the statistics, the
   * `{"errors": "Invalid data structure"}` dictionary of a `KeyError`, or an
   * exception that escapes to the caller (`Raises`).
   */
  datatype StatsResult =
    | Stats(totalContributions: int, highestContribution: int, currentStreak: nat, longestStreak: nat,
            days: seq<Day>)
    | InvalidDataStructure
    | Raises

  /**
   * process_contribution_data. The total is the calendar's
   * `totalContributions` and is not recomputed from the days. None, or a
   * null on the path to the calendar, raises a `TypeError`, and an empty
   * calendar makes `max` raise a `ValueError`; neither is caught.
   */
  method ProcessContributionData(response: Response) returns (r: StatsResult)
    ensures r.Raises? <==>
      || response.Null?
      || response.NullOnPath?
      || (response.ContributionCalendar? && response.totalContributions.Some? && Flatten(response.weeks) == [])
    ensures r.InvalidDataStructure? <==>
      || response.EmptyObject?
      || response.MissingKeys?
      || (response.ContributionCalendar? &&
          (response.totalContributions.None? || (Flatten(response.weeks) != [] && !HasCounts(Flatten(response.weeks)))))
    ensures r.Stats? ==> (
      response.ContributionCalendar? &&
      var days := Flatten(response.weeks);
      var counts := Counts(days);
      && r.days == days
      && Some(r.totalContributions) == response.totalContributions
      && r.highestContribution in counts
      && (forall i :: 0 <= i < |counts| ==> counts[i] <= r.highestContribution)
      && r.currentStreak == TrailingRun(counts)
      && r.longestStreak == LongestRun(counts)
      && r.currentStreak <= r.longestStreak)
  {
    match response
    case Null =>
      return Raises;
    case EmptyObject =>
      return InvalidDataStructure;
    case MissingKeys =>
      return InvalidDataStructure;
    case NullOnPath =>
      return Raises;
    case ContributionCalendar(weeks, totalContributions, _) =>
      var days := Flatten(weeks);
      if totalContributions.None? {
        return InvalidDataStructure;
      }
      if days == [] {
        return Raises;
      }
      if !HasCounts(days) {
        return InvalidDataStructure;
      }
      var counts := Counts(days);
      var highestContribution := counts[HighestIndex(counts)];
      var currentStreak, longestStreak := ScanStreaks(counts);
      return Stats(totalContributions.value, highestContribution, currentStreak, longestStreak, days);
  }

  /**
   * process_language_data: the number of repositories per primary language;
   * repositories without a language are skipped, and any missing key gives
   * None.
   */
  method ProcessLanguageData(response: RepositoriesResponse) returns (r: Option<map<string, nat>>)
    ensures r.None? <==> response.MissingRepositories? || !WellFormedEdges(response.edges)
    ensures r.Some? ==>
      && r.value.Keys == LanguageNames(response.edges)
      && (forall name :: name in r.value ==> r.value[name] == LanguageCount(response.edges, name) > 0)
      && r.value == CountsMap(response.edges)
  {
    if response.MissingRepositories? {
      return None;
    }
    var edges := response.edges;
    var languageCounts: map<string, nat> := map[];
    for i := 0 to |edges|
      invariant WellFormedEdges(edges[..i])
      invariant languageCounts == CountsMap(edges[..i])
    {
      assert edges[..i + 1] == edges[..i] + [edges[i]];
      var edge := edges[i];
      if edge.MalformedEdge? {
        return None;
      }
      if edge.primaryLanguage.Some? {
        var language := edge.primaryLanguage.value.name;
        CountsMapStep(edges[..i], edge);
        languageCounts := languageCounts[language := (if language in languageCounts then languageCounts[language] else 0) + 1];
      }
    }
    assert edges[..|edges|] == edges;
    forall name | name in languageCounts
      ensures languageCounts[name] > 0
    {
      LanguageNamesMembership(edges, name);
    }
    return Some(languageCounts);
  }

  /** The repositories of the unit-test fixture: Python, JavaScript, Python, and one without a language. */
  function FixtureEdges(): seq<Edge> {
    [ Repository(Some(PrimaryLanguage("Python", Some(Some("#3572A5"))))),
      Repository(Some(PrimaryLanguage("JavaScript", Some(Some("#f1e05a"))))),
      Repository(Some(PrimaryLanguage("Python", Some(Some("#3572A5"))))),
      Repository(None) ]
  }

  /** On the fixture the histogram is Python 2, JavaScript 1, and nothing else. */
  lemma FixtureHistogram()
    ensures CountsMap(FixtureEdges()) == map["Python" := 2, "JavaScript" := 1]
    ensures |CountsMap(FixtureEdges())| == 2
  {
    var e := FixtureEdges();
    var e1, e2, e3 := e[..1], e[..2], e[..3];
    assert e1[..0] == [] && e2[..1] == e1 && e3[..2] == e2 && e[..3] == e3;
    assert LanguageNames(e1) == {"Python"} && LanguageCount(e1, "Python") == 1 && LanguageCount(e1, "JavaScript") == 0;
    assert LanguageNames(e2) == {"Python", "JavaScript"} && LanguageCount(e2, "Python") == 1 && LanguageCount(e2, "JavaScript") == 1;
    assert LanguageNames(e3) == {"Python", "JavaScript"} && LanguageCount(e3, "Python") == 2 && LanguageCount(e3, "JavaScript") == 1;
    assert LanguageNames(e) == {"Python", "JavaScript"} && LanguageCount(e, "Python") == 2 && LanguageCount(e, "JavaScript") == 1;
    assert CountsMap(e).Keys == {"Python", "JavaScript"};
  }
}
