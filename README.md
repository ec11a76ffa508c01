# GitHub-Stat-Checker contribution analytics in Dafny

This project models the analytics core of GitHub-Stat-Checker. That core is a small Python dashboard. It fetches a
user's contribution calendar and repository list from the GitHub GraphQL API, then summarises them. The model
covers the part between the API response and the page:

- **Contribution summaries.** `process_contribution_data` appears twice. Both versions flatten the calendar's
  weeks into one list of days.
  - The `process_github_data.py` version reports the public, private and total contribution counts, the highest
    day and its formatted date, the current streak (positive days at the end of the calendar), the longest
    streak, the number of distinct active dates, today's contributions and the days. On an error it returns a
    zeroed fallback.
  - The `github_stats.py` version reports only the calendar's total, the highest count, the two streaks and the
    days. On a missing key it returns an `errors` record; other errors escape as exceptions.
- **Contribution analysis.** `analyze_contributions` reports the total, the day count, the active-day count and
  the contributions-per-day rate.
- **Language histograms.** `process_language_data` (in both files) counts repositories per primary language.
  The `process_github_data.py` version also keeps the first colour seen for each language. The colour is
  `#808080` when the key is absent and None when GitHub reports it as null.
- **Activity predictions.** These are the functions of `github_activity_predictions.py`:
  - long-term trend;
  - future active days;
  - burnout outlook from mean year-over-year percentage change;
  - consistency class;
  - account longevity from a projected geometric decay;
  - effective rate;
  - days to a milestone.
- **Formatting helpers** from `util.py`:
  - `format_duration`, which splits an elapsed day count into 365-day years, 30-day months and days;
  - the day-of-month suffix rule used by `format_date_ddmmyyyy` and `format_iso_date`.

The API payload is modelled as a datatype (`Calendar.Response`, `Languages.RepositoriesResponse`). It separates
the cases the Python code tells apart:
- `None`;
- `{}`;
- a payload with a missing key;
- a payload with a null on the path to the calendar, such as `{"data": {"user": null}}` for an unknown login;
- a well-formed calendar whose days may lack a `date` or a `contributionCount`.

A language's `color` is likewise absent, null or a value.

The two streak loops share the imperative method `Calendar.ScanStreaks`. It is proved against two specification
functions on the count sequence:
- `TrailingRun`: the length of the positive run that ends at the last day;
- `LongestRun`: the length of the longest positive run.

Lemmas show what those functions mean: the trailing run is maximal, and the longest run is attained and bounds
every positive run.

The histogram loops are methods whose results equal specification maps (`CountsMap`, `LanguageTable`).
These maps are built over the recursive functions `LanguageNames`, `LanguageCount` and `FirstColor`. Lemmas about those functions give the following:
- the key sets;
- counts: both tables hold the same counts, and they sum to the number of repositories that have a language;
- first colours;
- the outcome on the repository fixture used by the project's tests.

`format_duration` is paired with a parser for its output. Reading the text back yields the year, month and day
decomposition, for every day count.

Python true division is modelled with `real`. Each prediction contract states the defining equation of its
quotient (for example `rate * days == total`) rather than restating the division.

Some behaviours of the code are easy to miss; the model keeps them:
- The long-term trend compares the unrounded rates (`github_activity_predictions.py:42-43`). Only the returned
  rates are rounded.
- `predict_milestone` checks `lifetime_rate <= 0` before it checks whether the milestone is already reached
  (`github_activity_predictions.py:209-214`). So a reached milestone with a zero rate is unreachable, not 0 days.
- The test at `test_github_predictions.py:90` expects `predict_effective_rate(-100, 200, 365) >= 0`. The code
  returns a negative rate for that input: `ActivityPredictions.EffectiveRateSign` proves the result is negative
  whenever the total is negative, the active days are positive and the account age is non-zero.
- The day-suffix rule gives "th" for the 22nd and 23rd. `Util.DaySuffixAgainstEnglish` shows that these are the
  only days where it differs from English ordinals.

## Model

| member | source | states |
|---|---|---|
| Util.Decompose | util.py:9-11 | years, months and days recombine to the elapsed day count (365·y + 30·m + d); months lie in 0..12, days in 0..29, and 30·m + d < 365 |
| Util.DecomposeUnique | util.py:9-11 | any decomposition that meets those bounds equals `Decompose`, so the split is the unique one |
| Util.NatToStringRoundTrip | util.py:15-19 | the decimal rendering of a count reads back to the same number |
| Util.ComponentShape | util.py:14-19 | a "N unit" part starts with N's decimal text, and it ends in the plural 's' exactly when N > 1 |
| Util.IntToString | util.py:15-19 | the decimal text of a number is non-empty, has no space, and has no leading zero unless the number is 0 |
| Util.IntToStringRoundTrip | util.py:15-19 | the text of every integer, negative ones included, reads back to that integer |
| Util.Components | util.py:13-19 | one part per non-zero component, in the order years, months, days: the years part first, the months part next, the days part last, each "N unit" as `Component` renders it; no parts exactly when all three are zero |
| Util.JoinWords | util.py:21 | the space-joined text starts with the first part |
| Util.JoinWordsAppend | util.py:21 | joining one more part appends a single space and that part |
| Util.FormatDuration | util.py:4-21 | the result is "0 days" exactly when the elapsed day count is 0 |
| Util.FormatDurationRoundTrip | util.py:4-21 | for every elapsed day count, splitting the text at spaces and reading each "N unit" pair back gives exactly `Decompose` of the count (the "0 days" fallback included) |
| Util.DaySuffix | util.py:25 | "st" exactly for days 1, 21 and 31; "nd" only for 2; "rd" only for 3; "th" for every other day |
| Util.DaySuffixAgainstEnglish | util.py:25 | for days 1..31 the rule agrees with English ordinal suffixes exactly when the day is neither 22 nor 23 |
| Util.OrdinalDayRoundTrip | util.py:25 | the rendered day is its decimal digits followed by the two-letter suffix; the digits read back to the day |
| Util.IsoDateMatchesCalendarDate | util.py:33-35 | formatting an ISO timestamp gives the same long date as formatting its calendar date, with the same suffix |
| Calendar.FlattenIndex | process_github_data.py:17 | day k of week w sits at position (days of earlier weeks) + k of the flattened list, and the flattened length is the total of the week lengths |
| Calendar.FlattenAppend | github_stats.py:47 | flattening weeks plus one week appends that week's days |
| Calendar.TrailingRun | process_github_data.py:44-49 | the trailing positive run is no longer than the calendar |
| Calendar.LongestRun | process_github_data.py:44-49 | the longest run is at least the trailing run and at most the calendar length |
| Calendar.TrailingRunIsMaximal | process_github_data.py:44-49 | the last `TrailingRun` days are all positive, and the day before them (if any) is not |
| Calendar.RunToEndWithinTrailing | process_github_data.py:44-49 | every positive run reaching the last day is no longer than `TrailingRun` |
| Calendar.LongestRunAttained | process_github_data.py:44-49 | some positive run has length exactly `LongestRun` |
| Calendar.LongestRunIsMaximal | process_github_data.py:44-49 | every positive run is at most `LongestRun` long |
| Calendar.NoActivityNoStreak | process_github_data.py:39-49 | a calendar with no positive day has both streaks 0 |
| Calendar.ScanStreaks | process_github_data.py:39-49 | the single pass returns current = `TrailingRun(counts)` and longest = `LongestRun(counts)`, with current ≤ longest |
| Calendar.HighestIndex | process_github_data.py:32-33 | on a non-empty calendar: an index whose count is the maximum, and the first such index (what `max` with a key returns) |
| Calendar.Counts | process_github_data.py:45 | one count per day, in order, equal to each day's `contributionCount` |
| Calendar.CountPositive | process_github_data.py:188 | the number of positive days is at most the number of days |
| Calendar.ActiveDatesMembership | process_github_data.py:56 | a date is active exactly when some day with that date has a positive count |
| Calendar.ActiveDatesBound | process_github_data.py:56-57 | distinct active dates ≤ positive days ≤ all days |
| Calendar.ActiveDatesDistinct | process_github_data.py:56-57 | when no date repeats, distinct active dates = positive days |
| Calendar.CommitsOnOneDay | process_github_data.py:63-68 | today's total is 0 when no day has today's date, and is that day's count when one does (dates distinct) |
| Languages.WithLanguage | github_stats.py:86 | the number of repositories with a primary language is at most the number of edges |
| Languages.LanguageNamesMembership | github_stats.py:84-88 | a language is a key exactly when some repository has it as primary language, and exactly when its count is positive |
| Languages.StoredColor | process_github_data.py:115 | `.get('color', '#808080')`: the default when the key is absent, None when it holds null, the colour otherwise |
| Languages.FirstColorIsFirst | process_github_data.py:115-118 | the stored colour is the `StoredColor` of the first repository with the language |
| Languages.CountsMapStep | github_stats.py:84-88 | one more edge increments its language's count (from 0 when new) and leaves the map unchanged when it has no language |
| Languages.CountsSumToLanguageRepositories | github_stats.py:84-88 | the histogram's counts sum to the number of repositories with a primary language, which is at most the number of edges |
| ProcessGithubData.ProcessContributionData | process_github_data.py:14-92 | zeroed fallback exactly when the payload is not a complete calendar (None, `{}`, a missing or null key, a day lacking a key). Otherwise: totals come from the calendar with 0 defaults; the highest day and its date come from the first maximal day, or 0/None for an empty calendar; the streaks are the specification runs; active days = distinct active dates; today's commits. It also states current ≤ longest, active days ≤ days, and every count ≤ highest |
| ProcessGithubData.AnalyzeContributions | process_github_data.py:173-198 | None exactly for a null or empty payload. An errors record exactly for a missing key, a null on the path, a day without a count, or an empty calendar (division by zero). Otherwise every day has a count, total = sum of counts, days = calendar length, active = positive days ≤ days, and rate·days = total |
| ProcessGithubData.ActiveDayCountsAgree | process_github_data.py:188 | with distinct dates, the active-day count of the analysis equals the summary's distinct active dates |
| ProcessGithubData.LanguageTableStep | process_github_data.py:113-120 | a repository with a known language bumps its count and keeps its colour; a new language starts at count 1 with this repository's `StoredColor` |
| ProcessGithubData.LanguageTableCounts | process_github_data.py:117-120 | the table has the same languages and counts as the plain histogram, so its counts also sum to the number of repositories with a language |
| ProcessGithubData.ProcessLanguageData | process_github_data.py:104-125 | None exactly for a missing repository list or a malformed edge. Otherwise the keys are the languages present; each entry holds the repository count and the first colour; and the result equals `LanguageTable` |
| GithubStats.ProcessContributionData | github_stats.py:44-70 | raises exactly for a null payload, a null on the path to the calendar (a `TypeError` the `KeyError` handler does not catch), or an empty calendar that has a total (`max` of nothing). "Invalid data structure" exactly for `{}`, missing keys, a missing total, or a day without a count. Otherwise: total from the calendar, highest is a count and bounds every count, the streaks are the specification runs, current ≤ longest |
| GithubStats.ProcessLanguageData | github_stats.py:72-93 | None exactly for a missing repository list or a malformed edge. Otherwise the keys are the languages present, each count is that language's positive repository count, and the result equals `CountsMap` |
| GithubStats.FixtureHistogram | test_github_stats.py:51-57 | on the test fixture (two Python, one JavaScript, one repository without a language) the histogram is exactly {Python: 2, JavaScript: 1} |
| ActivityPredictions.PredictLongTermActivity | github_activity_predictions.py:36-49 | "insufficient data" (rates 0) exactly when either day count is 0. Otherwise: lifetime·days = total; current·active = current-year total for positive active days (0 for negative); the trend is increasing, stable or decreasing exactly as current >, = or < lifetime |
| ActivityPredictions.TrendByCrossMultiplication | github_activity_predictions.py:39-43 | for positive day counts the trend is decided by comparing current-year × days with total × active days, with no division |
| ActivityPredictions.PredictFutureActiveDays | github_activity_predictions.py:67-71 | 0 when the account age is 0; otherwise prediction × days = active × remaining |
| ActivityPredictions.FutureActiveDaysNonNegative | github_activity_predictions.py:67-71 | for any non-negative active days, age and remaining days, the prediction is at least 0, with no bound of active days by age |
| ActivityPredictions.FutureActiveDaysWithinRemaining | github_activity_predictions.py:67-71 | with 0 ≤ active ≤ age, the prediction lies between 0 and the remaining days |
| ActivityPredictions.PercentChanges | github_activity_predictions.py:87-90 | one change per adjacent pair of years, each the percentage change from the older year (0 when it is not positive) |
| ActivityPredictions.FractionalChanges | github_activity_predictions.py:146-149 | one change per adjacent pair of years |
| ActivityPredictions.FractionalChangesElements | github_activity_predictions.py:146-149 | entry `i` is the fractional change from year `i + 1` to the more recent year `i`, and 0 when year `i + 1` is not positive |
| ActivityPredictions.ClassifyBurnout | github_activity_predictions.py:94-103 | the five bands are exactly < −20, [−20, −5), (20, ∞), (5, 20] and [−5, 5] |
| ActivityPredictions.PredictBurnout | github_activity_predictions.py:83-103 | "insufficient data" exactly for fewer than two years; otherwise the band of the mean percentage change |
| ActivityPredictions.EveryYearUpByAFifth | github_activity_predictions.py:87-99 | if every year exceeds the previous one by more than a fifth, the outlook is a significant increase |
| ActivityPredictions.EveryYearDownByAFifth | github_activity_predictions.py:87-95 | if every year falls below the previous one by more than a fifth, the outlook is a significant decrease |
| ActivityPredictions.UnchangedHistoryIsSteady | github_activity_predictions.py:87-103 | if each year equals the previous one, or the previous one is not positive, the outlook is stable |
| ActivityPredictions.BurnoutExample | test_github_predictions.py:47-49 | for [150, 100, 50] the mean change is 75% and the outlook is a significant increase |
| ActivityPredictions.ClassifyConsistency | github_activity_predictions.py:121-128 | the four classes are exactly score ≥ 80, [50, 80), [25, 50) and < 25 |
| ActivityPredictions.PredictConsistency | github_activity_predictions.py:116-130 | "No activity" (score 0) exactly when the account age is 0; otherwise score·days = 100·active and the class is that of the score |
| ActivityPredictions.ConsistencyScoreInRange | test_github_predictions.py:52-56 | with 0 ≤ active ≤ age the score lies in [0, 100] |
| ActivityPredictions.ConsistencyMonotone | github_activity_predictions.py:119-128 | more active days never give a lower class |
| ActivityPredictions.ConsistencyExample | test_github_predictions.py:52 | 200 active days out of 365 is a regular contributor |
| ActivityPredictions.PredictAccountLongevity | github_activity_predictions.py:142-167 | "insufficient data" exactly for fewer than two years. "Sustained" exactly when the mean change is ≥ 0. "May cease in ~n years" means projection n is the first at or below 10, with n < 10. "10+ years" means the first ten projections all exceed 10. A current year at or below 10 with a negative mean gives 0 years |
| ActivityPredictions.ProjectedNonIncreasing | github_activity_predictions.py:158-162 | for a non-negative start and a decay factor in [0, 1], each projected year is non-negative and no larger than the previous one |
| ActivityPredictions.PredictEffectiveRate | github_activity_predictions.py:185-191 | 0 when either day count is 0; otherwise rate·days² = total·active |
| ActivityPredictions.EffectiveRateSign | github_activity_predictions.py:185-191 | non-negative for non-negative total and active days; negative for a negative total with positive active days and a non-zero age |
| ActivityPredictions.EffectiveRateAtMostLifetimeRate | github_activity_predictions.py:188-191 | with 0 ≤ active ≤ age, the effective rate is at most the plain lifetime rate total/age |
| ActivityPredictions.PredictMilestone | github_activity_predictions.py:209-216 | unreachable (infinity) exactly when the rate is ≤ 0. Otherwise days ≥ 0, days = 0 exactly when the milestone is already reached, and current + days·rate = milestone |
| ActivityPredictions.MilestoneFasterIsSooner | github_activity_predictions.py:212-216 | a higher positive rate never needs more days |
| ActivityPredictions.MilestoneExample | test_github_predictions.py:69-71 | 5000 → 10000 at 13.7 a day takes between 364.9 and 365.0 days |

## Left out

- HTTP fetching (`fetch_*` functions), the Streamlit pages, CSS loading and `print` logging: these are I/O. The
  model starts from an already parsed payload.
- `process_user_data`, `is_less_than_2_months_old`, `run_all_predictions` and the wall clock: these read
  `datetime.now()`. `format_duration` takes the elapsed day count as a parameter, and today's commits take
  today's date as a parameter.
- Date parsing with `strptime` and the `ValueError` it can raise: dates arrive as a parsed `Date` or `Timestamp`.
  Month names are not rendered. A long date keeps the month number, the day text with its suffix, and the year.
- `predict_days_to_milestone` and `get_milestone_dates`: `pages/predictions.py` imports them from `util`, but
  `util.py` defines neither, so they are not part of this model.
- Floating-point behaviour: quotients are exact reals, with no IEEE rounding, infinity arithmetic or overflow.
- The `isinstance` sanitisation of non-numeric totals (`process_github_data.py:25-28`): totals are modelled as
  optional integers, so a non-numeric total cannot arise.
- The text of exception messages (`str(e)`): error results carry no message.
- A `totalContributions` or `restrictedContributionsCount` that is present but null, and a day whose `date` or
  `contributionCount` is present but null: the model has no value for these. A missing key is modelled; a null
  is not.
- ProcessGithubData.ProcessLanguageData: the result is a map, so it does not keep the dictionary's first-seen
  order. The page sorts languages by count with a stable sort (`app.py:398`), so languages with equal counts are
  shown in that order, which the model does not capture. `GithubStats.ProcessLanguageData` is the same.
- A `TypeError` from a count that is present but not a number: counts are integers.
- ActivityPredictions.PredictLongTermActivity: rates are unrounded, because `round(x, 2)` is not modelled.
- ActivityPredictions.PredictFutureActiveDays: unrounded, because `round(x, 1)` is not modelled.
- ActivityPredictions.PredictConsistency: the score is unrounded, because `round(x, 1)` is not modelled. The class
  is computed from the unrounded score, as in the code.
- ActivityPredictions.PredictEffectiveRate: unrounded, because `round(x, 2)` is not modelled.
- ActivityPredictions.PredictMilestone: unrounded, because `round(x, 1)` is not modelled. The infinite result is a
  separate `Unreachable` case.
- ProcessGithubData.AnalyzeContributions: the rate is unrounded, because `round(x, 2)` is not modelled.
- ActivityPredictions.PredictAccountLongevity: the message renders the year count as an integer followed by ".0",
  which matches `:.1f` for the whole numbers the loop produces.
