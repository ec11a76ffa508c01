/**
 * The contribution calendar as the GraphQL API returns it, and the analyses
 * both calendar processors (process_github_data.py and github_stats.py)
 * perform on it: flattening weeks into days, the streak scan, the
 * highest-contribution day, active days and sums.
 */
module Calendar {
  import opened Wrappers
  import opened Util

  /** One entry of `contributionDays`; either key may be missing. */
  datatype Day = Day(date: Option<Date>, contributionCount: Option<int>)

  /**
   * A contribution-calendar response:
   * - `Null`: the value None;
   * - `EmptyObject`: the empty dictionary (falsy, like None);
   * - `MissingKeys`: a non-empty dictionary in which one of the keys `data`,
   *   `user`, `contributionsCollection`, `contributionCalendar`, `weeks`, or
   *   a week's `contributionDays`, is absent (an `{"errors": ...}` payload
   *   among them);
   * - `NullOnPath`: a dictionary in which one of those keys is present but
   *   holds null, as in `{"data": {"user": null}, "errors": [...]}`, the
   *   answer for an unknown login;
   * - `ContributionCalendar`: the weeks, with the calendar's
   *   `totalContributions` and the collection's `restrictedContributionsCount`
   *   when those keys are present.
   * A payload with both an absent key and a null key takes the case of the
   * one met first when the keys are read in order, from `data` inward and
   * week by week.
   */
  datatype Response =
    | Null
    | EmptyObject
    | MissingKeys
    | NullOnPath
    | ContributionCalendar(weeks: seq<seq<Day>>, totalContributions: Option<int>,
                           restrictedContributionsCount: Option<int>)

  // ---------------------------------------------------------------------------
  // Flattening
  // ---------------------------------------------------------------------------

  /** `[day for week in weeks for day in week]`. */
  function Flatten<T>(weeks: seq<seq<T>>): (days: seq<T>)
  {
    if weeks == [] then [] else weeks[0] + Flatten(weeks[1..])
  }

  /** Flattening one more week appends exactly that week's days. */
  lemma {:induction false} FlattenAppend<T>(weeks: seq<seq<T>>, week: seq<T>)
    ensures Flatten(weeks + [week]) == Flatten(weeks) + week
  {
    if weeks != [] {
      assert (weeks + [week])[1..] == weeks[1..] + [week];
      FlattenAppend(weeks[1..], week);
    } else {
      assert Flatten([week]) == week + Flatten<T>([]);
    }
  }

  /** The number of days is the sum of the week lengths. */
  function TotalLength<T>(weeks: seq<seq<T>>): nat {
    if weeks == [] then 0 else |weeks[0]| + TotalLength(weeks[1..])
  }

  /**
   * Every day of every week appears in the flattened sequence, after all the
   * days of the earlier weeks, and nothing else does.
   */
  lemma {:induction false} FlattenIndex<T>(weeks: seq<seq<T>>, w: nat, k: nat)
    requires w < |weeks| && k < |weeks[w]|
    ensures |Flatten(weeks)| == TotalLength(weeks)
    ensures TotalLength(weeks[..w]) + k < |Flatten(weeks)|
    ensures Flatten(weeks)[TotalLength(weeks[..w]) + k] == weeks[w][k]
  {
    FlattenLength(weeks);
    if w > 0 {
      assert weeks[1..][..w - 1] == weeks[..w][1..];
      FlattenIndex(weeks[1..], w - 1, k);
    } else {
      assert weeks[..0] == [];
    }
  }

  lemma {:induction false} FlattenLength<T>(weeks: seq<seq<T>>)
    ensures |Flatten(weeks)| == TotalLength(weeks)
  {
    if weeks != [] {
      FlattenLength(weeks[1..]);
    }
  }

  // ---------------------------------------------------------------------------
  // Well-formed days
  // ---------------------------------------------------------------------------

  predicate HasCounts(days: seq<Day>) {
    forall i :: 0 <= i < |days| ==> days[i].contributionCount.Some?
  }

  predicate IsComplete(days: seq<Day>) {
    forall i :: 0 <= i < |days| ==> days[i].contributionCount.Some? && days[i].date.Some?
  }

  /** The contribution counts of days that all have one. */
  function Counts(days: seq<Day>): (counts: seq<int>)
    requires HasCounts(days)
    ensures |counts| == |days|
    ensures forall i :: 0 <= i < |days| ==> counts[i] == days[i].contributionCount.value
  {
    seq(|days|, i requires 0 <= i < |days| => days[i].contributionCount.value)
  }

  // ---------------------------------------------------------------------------
  // Streaks
  // ---------------------------------------------------------------------------

  /** Every day in `s[i..j]` has a positive count. */
  ghost predicate IsPositiveRun(s: seq<int>, i: int, j: int)
    requires 0 <= i <= j <= |s|
  {
    forall k :: i <= k < j ==> s[k] > 0
  }

  /** The length of the run of positive counts that ends with the last day. */
  function TrailingRun(s: seq<int>): (t: nat)
    ensures t <= |s|
  {
    if s == [] || s[|s| - 1] <= 0 then 0 else TrailingRun(s[..|s| - 1]) + 1
  }

  /** The length of the longest run of positive counts anywhere. */
  function LongestRun(s: seq<int>): (l: nat)
    ensures TrailingRun(s) <= l <= |s|
  {
    if s == [] then 0
    else
      var before := LongestRun(s[..|s| - 1]);
      if before < TrailingRun(s) then TrailingRun(s) else before
  }

  /** TrailingRun is the maximal positive run ending at the last day. */
  lemma {:induction false} TrailingRunIsMaximal(s: seq<int>)
    ensures IsPositiveRun(s, |s| - TrailingRun(s), |s|)
    ensures TrailingRun(s) < |s| ==> s[|s| - TrailingRun(s) - 1] <= 0
  {
    if s != [] && s[|s| - 1] > 0 {
      TrailingRunIsMaximal(s[..|s| - 1]);
    }
  }

  /** A positive run that reaches the last day is no longer than TrailingRun. */
  lemma {:induction false} RunToEndWithinTrailing(s: seq<int>, i: int)
    requires 0 <= i <= |s| && IsPositiveRun(s, i, |s|)
    ensures |s| - i <= TrailingRun(s)
  {
    if i < |s| {
      var p := s[..|s| - 1];
      assert IsPositiveRun(p, i, |p|);
      RunToEndWithinTrailing(p, i);
    }
  }

  /** Some positive run has length LongestRun. */
  lemma {:induction false} LongestRunAttained(s: seq<int>)
    ensures exists i, j :: 0 <= i <= j <= |s| && j - i == LongestRun(s) && IsPositiveRun(s, i, j)
  {
    if s == [] {
      assert IsPositiveRun(s, 0, 0);
    } else {
      var p := s[..|s| - 1];
      if LongestRun(p) < TrailingRun(s) {
        TrailingRunIsMaximal(s);
        assert IsPositiveRun(s, |s| - TrailingRun(s), |s|);
      } else {
        LongestRunAttained(p);
        var i, j :| 0 <= i <= j <= |p| && j - i == LongestRun(p) && IsPositiveRun(p, i, j);
        assert IsPositiveRun(s, i, j);
      }
    }
  }

  /** No positive run is longer than LongestRun. */
  lemma {:induction false} LongestRunIsMaximal(s: seq<int>, i: int, j: int)
    requires 0 <= i <= j <= |s| && IsPositiveRun(s, i, j)
    ensures j - i <= LongestRun(s)
  {
    if j == |s| {
      RunToEndWithinTrailing(s, i);
    } else {
      var p := s[..|s| - 1];
      assert IsPositiveRun(p, i, j);
      LongestRunIsMaximal(p, i, j);
    }
  }

  /** A calendar without a single positive day has no streak at all. */
  lemma {:induction false} NoActivityNoStreak(s: seq<int>)
    requires forall k :: 0 <= k < |s| ==> s[k] <= 0
    ensures LongestRun(s) == 0 && TrailingRun(s) == 0
  {
    if s != [] {
      NoActivityNoStreak(s[..|s| - 1]);
    }
  }

  /**
   * The streak loop: a counter incremented on a positive day and reset on any
   * other, whose running maximum is the longest streak.
   */
  method ScanStreaks(counts: seq<int>) returns (currentStreak: nat, longestStreak: nat)
    ensures currentStreak == TrailingRun(counts)
    ensures longestStreak == LongestRun(counts)
    ensures currentStreak <= longestStreak
  {
    currentStreak, longestStreak := 0, 0;
    for i := 0 to |counts|
      invariant currentStreak == TrailingRun(counts[..i])
      invariant longestStreak == LongestRun(counts[..i])
    {
      assert counts[..i + 1][..i] == counts[..i];
      if counts[i] > 0 {
        currentStreak := currentStreak + 1;
        longestStreak := if longestStreak < currentStreak then currentStreak else longestStreak;
      } else {
        currentStreak := 0;
      }
    }
    assert counts[..|counts|] == counts;
  }

  // ---------------------------------------------------------------------------
  // Highest-contribution day
  // ---------------------------------------------------------------------------

  /**
   * The index of the day Python's `max(days, key=count)` picks: a maximal
   * count, and the first day that attains it.
   */
  function HighestIndex(counts: seq<int>): (k: nat)
    requires counts != []
    ensures k < |counts|
    ensures forall j :: 0 <= j < |counts| ==> counts[j] <= counts[k]
    ensures forall j :: 0 <= j < k ==> counts[j] < counts[k]
  {
    if |counts| == 1 then 0
    else
      var k := HighestIndex(counts[..|counts| - 1]);
      if counts[|counts| - 1] > counts[k] then |counts| - 1 else k
  }

  // ---------------------------------------------------------------------------
  // Active days, sums
  // ---------------------------------------------------------------------------

  /** The number of days with a positive count. */
  function CountPositive(counts: seq<int>): (n: nat)
    ensures n <= |counts|
  {
    if counts == [] then 0
    else CountPositive(counts[..|counts| - 1]) + (if counts[|counts| - 1] > 0 then 1 else 0)
  }

  /** The set of dates of the days with a positive count. */
  function ActiveDates(days: seq<Day>): set<Date>
    requires IsComplete(days)
  {
    if days == [] then {}
    else
      var last := days[|days| - 1];
      ActiveDates(days[..|days| - 1]) + (if last.contributionCount.value > 0 then {last.date.value} else {})
  }

  /** A date is active exactly when some day with a positive count carries it. */
  lemma {:induction false} ActiveDatesMembership(days: seq<Day>, d: Date)
    requires IsComplete(days)
    ensures d in ActiveDates(days) <==>
      exists i :: 0 <= i < |days| && days[i].date == Some(d) && days[i].contributionCount.value > 0
  {
    if days != [] {
      var p := days[..|days| - 1];
      ActiveDatesMembership(p, d);
      if exists i :: 0 <= i < |days| && days[i].date == Some(d) && days[i].contributionCount.value > 0 {
        var i :| 0 <= i < |days| && days[i].date == Some(d) && days[i].contributionCount.value > 0;
        if i < |p| {
          assert p[i] == days[i];
        }
      }
    }
  }

  /**
   * There are no more distinct active dates than active days, and no more
   * active days than days.
   */
  lemma {:induction false} ActiveDatesBound(days: seq<Day>)
    requires IsComplete(days)
    ensures |ActiveDates(days)| <= CountPositive(Counts(days)) <= |days|
  {
    if days != [] {
      var p := days[..|days| - 1];
      assert Counts(days)[..|days| - 1] == Counts(p);
      ActiveDatesBound(p);
    }
  }

  predicate DistinctDates(days: seq<Day>) {
    forall i, j :: 0 <= i < j < |days| ==> days[i].date != days[j].date
  }

  /** When no date repeats, the distinct active dates are exactly the active days. */
  lemma {:induction false} ActiveDatesDistinct(days: seq<Day>)
    requires IsComplete(days) && DistinctDates(days)
    ensures |ActiveDates(days)| == CountPositive(Counts(days))
  {
    if days != [] {
      var p := days[..|days| - 1];
      var last := days[|days| - 1];
      assert Counts(days)[..|days| - 1] == Counts(p);
      ActiveDatesDistinct(p);
      ActiveDatesMembership(p, last.date.value);
      assert last.date.value !in ActiveDates(p);
    }
  }

  /** The sum of the counts. */
  function Sum(counts: seq<int>): int {
    if counts == [] then 0 else Sum(counts[..|counts| - 1]) + counts[|counts| - 1]
  }

  /** The total of the counts of the days dated `today`. */
  function CommitsOn(days: seq<Day>, today: Date): int
    requires IsComplete(days)
  {
    if days == [] then 0
    else
      var last := days[|days| - 1];
      CommitsOn(days[..|days| - 1], today) + (if last.date.value == today then last.contributionCount.value else 0)
  }

  /** With no repeated dates, the commits of `today` are the count of the one day dated `today`, or 0 without one. */
  lemma {:induction false} CommitsOnOneDay(days: seq<Day>, today: Date)
    requires IsComplete(days) && DistinctDates(days)
    ensures (forall i :: 0 <= i < |days| ==> days[i].date != Some(today)) ==> CommitsOn(days, today) == 0
    ensures forall i :: 0 <= i < |days| && days[i].date == Some(today) ==>
      CommitsOn(days, today) == days[i].contributionCount.value
  {
    if days != [] {
      var p := days[..|days| - 1];
      CommitsOnOneDay(p, today);
      forall i | 0 <= i < |days| && days[i].date == Some(today)
        ensures CommitsOn(days, today) == days[i].contributionCount.value
      {
        if i < |p| {
          assert p[i] == days[i];
          assert forall k :: 0 <= k < |p| && k != i ==> p[k].date != Some(today);
        }
      }
    }
  }
}
