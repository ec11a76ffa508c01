/**
 * The formatting helpers of util.py: the decimal rendering of integers that
 * Python's f-strings perform, the year/month/day decomposition of an elapsed
 * day count, and the ordinal day suffix used by the two long-date formatters.
 */
module Util {
  import opened Wrappers

  /** A calendar date, as `strptime` yields it. */
  datatype Date = Date(year: int, month: int, day: int)

  /** An ISO timestamp "%Y-%m-%dT%H:%M:%SZ". */
  datatype Timestamp = Timestamp(date: Date, hour: int, minute: int, second: int)

  /**
   * The text "%B {day}, %Y" produced by both long-date formatters; the month
   * name is represented by the month number.
   */
  datatype LongDate = LongDate(month: int, day: string, year: int)

  /** The three components of an elapsed day count. */
  datatype Duration = Duration(years: int, months: int, days: int)

  // ---------------------------------------------------------------------------
  // Decimal rendering (Python's `str` on an int)
  // ---------------------------------------------------------------------------

  predicate IsDigit(c: char) {
    '0' <= c <= '9'
  }

  predicate AllDigits(s: string) {
    forall i :: 0 <= i < |s| ==> IsDigit(s[i])
  }

  function DigitChar(d: nat): (c: char)
    requires d < 10
    ensures IsDigit(c) && c as int - '0' as int == d
  {
    ('0' as int + d) as char
  }

  /** The decimal digits of `n`, without leading zeros. */
  function NatToString(n: nat): (s: string)
    ensures |s| >= 1 && AllDigits(s)
    ensures n > 0 ==> s[0] != '0'
    decreases n
  {
    if n < 10 then [DigitChar(n)] else NatToString(n / 10) + [DigitChar(n % 10)]
  }

  /** The number a string of decimal digits denotes. */
  function DigitsValue(s: string): nat
    requires AllDigits(s)
  {
    if s == [] then 0 else DigitsValue(s[..|s| - 1]) * 10 + (s[|s| - 1] as int - '0' as int)
  }

  /** Reading back the digits of `n` gives `n`. */
  lemma {:induction false} NatToStringRoundTrip(n: nat)
    ensures DigitsValue(NatToString(n)) == n
  {
    if n >= 10 {
      var s := NatToString(n);
      assert s[..|s| - 1] == NatToString(n / 10);
      NatToStringRoundTrip(n / 10);
    }
  }

  /** Python's `str(n)`: a minus sign before the digits of a negative number. */
  function IntToString(n: int): (s: string)
    ensures |s| >= 1 && ' ' !in s
    ensures n != 0 ==> s[0] != '0'
  {
    if n < 0 then "-" + NatToString(-n) else NatToString(n)
  }

  /** Python's `int(w)` on an optionally negative decimal numeral; None when `w` is not one. */
  function ParseInt(w: string): Option<int> {
    if |w| >= 2 && w[0] == '-' && AllDigits(w[1..]) then Some(-(DigitsValue(w[1..]) as int))
    else if |w| >= 1 && AllDigits(w) then Some(DigitsValue(w))
    else None
  }

  /** Reading back the text of any integer gives the integer. */
  lemma IntToStringRoundTrip(n: int)
    ensures ParseInt(IntToString(n)) == Some(n)
  {
    if n < 0 {
      var t := NatToString(-n);
      var w := "-" + t;
      assert IntToString(n) == w;
      assert w[0] == '-' && w[1..] == t;
      NatToStringRoundTrip(-n);
    } else {
      var t := NatToString(n);
      assert IntToString(n) == t;
      assert IsDigit(t[0]);
      NatToStringRoundTrip(n);
    }
  }


  // ---------------------------------------------------------------------------
  // format_duration
  // ---------------------------------------------------------------------------

  /**
   * Years, months and days of an elapsed day count, by 365-day years and
   * 30-day months. Python's `//` and `%` floor, and Dafny's are Euclidean; the
   * two agree here because both divisors are positive.
   */
  function Decompose(elapsedDays: int): (d: Duration)
    ensures 365 * d.years + 30 * d.months + d.days == elapsedDays
    ensures 0 <= d.months <= 12 && 0 <= d.days <= 29
    ensures 0 <= 30 * d.months + d.days < 365
  {
    var rest := elapsedDays % 365;
    Duration(elapsedDays / 365, rest / 30, rest % 30)
  }

  /**
   * The decomposition is the only one whose months and days stay within a
   * 365-day year and whose days stay within a 30-day month.
   */
  lemma DecomposeUnique(elapsedDays: int, d: Duration)
    requires 365 * d.years + 30 * d.months + d.days == elapsedDays
    requires 0 <= d.days < 30 && 0 <= 30 * d.months + d.days < 365
    ensures d == Decompose(elapsedDays)
  {
    var e := Decompose(elapsedDays);
    var r := 30 * d.months + d.days;
    var r' := 30 * e.months + e.days;
    assert 365 * (d.years - e.years) == r' - r;
    assert d.years == e.years;
    assert 30 * (d.months - e.months) == e.days - d.days;
  }

  /** One component, "N unit" with an "s" when N is greater than 1. */
  function Component(value: int, unit: string): string {
    IntToString(value) + " " + unit + (if value > 1 then "s" else "")
  }

  /** A component names its value and carries a plural "s" exactly when the value exceeds 1. */
  lemma ComponentShape(value: int, unit: string)
    requires unit != [] && unit[|unit| - 1] != 's'
    ensures var c := Component(value, unit);
      && c[..|IntToString(value)|] == IntToString(value)
      && (c[|c| - 1] == 's' <==> value > 1)
  {
    var digits := IntToString(value);
    var tail := " " + unit + (if value > 1 then "s" else "");
    var c := Component(value, unit);
    assert c == digits + tail;
    assert c[|c| - 1] == tail[|tail| - 1];
  }

  /** The part for one component: "N unit" when N is non-zero, nothing otherwise. */
  function Part(value: int, unit: string): seq<string> {
    if value != 0 then [Component(value, unit)] else []
  }

  /** The non-zero components of `d`, in the order years, months, days. */
  function Components(d: Duration): (parts: seq<string>)
    ensures |parts| <= 3
    ensures parts == [] <==> d.years == 0 && d.months == 0 && d.days == 0
    ensures |parts| == (if d.years != 0 then 1 else 0) + (if d.months != 0 then 1 else 0) + (if d.days != 0 then 1 else 0)
    ensures d.years != 0 ==> parts[0] == Component(d.years, "year")
    ensures d.months != 0 ==> parts[if d.years != 0 then 1 else 0] == Component(d.months, "month")
    ensures d.days != 0 ==> parts[|parts| - 1] == Component(d.days, "day")
  {
    Part(d.years, "year") + Part(d.months, "month") + Part(d.days, "day")
  }

  /** Python's `" ".join(parts)`. */
  function JoinWords(parts: seq<string>): (s: string)
    requires parts != []
    ensures |s| >= |parts[0]| && s[..|parts[0]|] == parts[0]
  {
    if |parts| == 1 then parts[0] else parts[0] + " " + JoinWords(parts[1..])
  }

  /** Joining one more part appends a single space and that part. */
  lemma {:induction false} JoinWordsAppend(parts: seq<string>, p: string)
    requires parts != []
    ensures JoinWords(parts + [p]) == JoinWords(parts) + " " + p
  {
    if |parts| > 1 {
      assert (parts + [p])[1..] == parts[1..] + [p];
      JoinWordsAppend(parts[1..], p);
    }
  }

  /**
   * format_duration, with the number of days elapsed since the account was
   * created given as a parameter instead of being read from the clock.
   */
  function FormatDuration(elapsedDays: int): (s: string)
    ensures s == "0 days" <==> elapsedDays == 0
  {
    var parts := Components(Decompose(elapsedDays));
    if parts == [] then "0 days"
    else
      assert parts[0][0] != '0' by {
        var d := Decompose(elapsedDays);
        var v := if d.years != 0 then d.years else if d.months != 0 then d.months else d.days;
        assert parts[0] == Component(v, if d.years != 0 then "year" else if d.months != 0 then "month" else "day");
      }
      JoinWords(parts)
  }

  // ---------------------------------------------------------------------------
  // Reading a duration back
  // ---------------------------------------------------------------------------

  /** Reads one more character: a space starts a new word, any other character extends the last word. */
  function AddChar(words: seq<string>, c: char): (r: seq<string>)
    requires words != []
    ensures |r| >= 1
  {
    if c == ' ' then words + [[]] else words[..|words| - 1] + [words[|words| - 1] + [c]]
  }

  /** Python's `s.split(" ")`: the pieces between single spaces, empty pieces included. */
  function Words(s: string): (words: seq<string>)
    ensures |words| >= 1
  {
    if s == [] then [[]] else AddChar(Words(s[..|s| - 1]), s[|s| - 1])
  }

  /** A text without spaces is a single word. */
  lemma {:induction false} WordsOfSpaceFree(a: string)
    requires ' ' !in a
    ensures Words(a) == [a]
  {
    if a != [] {
      assert ' ' !in a[..|a| - 1];
      WordsOfSpaceFree(a[..|a| - 1]);
      assert a[..|a| - 1] + [a[|a| - 1]] == a;
    }
  }

  /** Appending one character to a text adds it to the text's words. */
  lemma WordsSnoc(s: string, c: char)
    ensures Words(s + [c]) == AddChar(Words(s), c)
  {
    assert (s + [c])[..|s|] == s;
  }

  /** A character read after `wa + wb` only affects the words of `wb`. */
  lemma AddCharAfter(wa: seq<string>, wb: seq<string>, c: char)
    requires wb != []
    ensures AddChar(wa + wb, c) == wa + AddChar(wb, c)
  {
    if c != ' ' {
      var w := wa + wb;
      assert w[..|w| - 1] == wa + wb[..|wb| - 1];
    }
  }

  /** Splitting `a + " " + b` splits `a` and `b` separately. */
  lemma {:induction false} WordsSplit(a: string, b: string)
    ensures Words(a + " " + b) == Words(a) + Words(b)
  {
    if b == [] {
      WordsSnoc(a, ' ');
      assert a + " " + b == a + [' '];
    } else {
      var b', c := b[..|b| - 1], b[|b| - 1];
      var s := a + " " + b';
      assert b == b' + [c];
      assert a + " " + b == s + [c];
      WordsSplit(a, b');
      WordsSnoc(s, c);
      WordsSnoc(b', c);
      AddCharAfter(Words(a), Words(b'), c);
    }
  }

  /** The words of a sequence of texts, each split on its own. */
  function WordsOf(parts: seq<string>): seq<string> {
    if parts == [] then [] else Words(parts[0]) + WordsOf(parts[1..])
  }

  lemma {:induction false} WordsOfAppend(a: seq<string>, b: seq<string>)
    ensures WordsOf(a + b) == WordsOf(a) + WordsOf(b)
  {
    if a == [] {
      assert a + b == b;
    } else {
      assert (a + b)[0] == a[0] && (a + b)[1..] == a[1..] + b;
      WordsOfAppend(a[1..], b);
      assert WordsOf(a + b) == Words(a[0]) + (WordsOf(a[1..]) + WordsOf(b));
    }
  }

  /** Splitting the joined parts gives the words of each part in turn. */
  lemma {:induction false} JoinWordsSplit(parts: seq<string>)
    requires parts != []
    ensures Words(JoinWords(parts)) == WordsOf(parts)
  {
    if |parts| == 1 {
      assert WordsOf(parts) == Words(parts[0]) + WordsOf([]);
    } else {
      WordsSplit(parts[0], JoinWords(parts[1..]));
      JoinWordsSplit(parts[1..]);
    }
  }

  /** The component-wise sum of two durations. */
  function Plus(a: Duration, b: Duration): Duration {
    Duration(a.years + b.years, a.months + b.months, a.days + b.days)
  }

  /** The duration one "N unit" pair denotes, singular or plural unit alike. */
  function ParseComponent(number: string, unit: string): Option<Duration> {
    match ParseInt(number)
    case None => None
    case Some(v) =>
      if unit == "year" || unit == "years" then Some(Duration(v, 0, 0))
      else if unit == "month" || unit == "months" then Some(Duration(0, v, 0))
      else if unit == "day" || unit == "days" then Some(Duration(0, 0, v))
      else None
  }

  /** The sum of the "N unit" pairs of a word list; None when a pair does not parse. */
  function ParseWords(words: seq<string>): Option<Duration>
    decreases |words|
  {
    if words == [] then Some(Duration(0, 0, 0))
    else if |words| == 1 then None
    else
      var first, rest := ParseComponent(words[0], words[1]), ParseWords(words[2..]);
      if first.Some? && rest.Some? then Some(Plus(first.value, rest.value)) else None
  }

  /** Reads a duration text such as "2 years 1 month 3 days" back into its components. */
  function ParseDuration(s: string): Option<Duration> {
    ParseWords(Words(s))
  }

  /** A word list of at least two words parses as its first pair plus the rest. */
  lemma ParseWordsStep(words: seq<string>)
    requires |words| >= 2
    ensures ParseWords(words) == (
      var first, rest := ParseComponent(words[0], words[1]), ParseWords(words[2..]);
      if first.Some? && rest.Some? then Some(Plus(first.value, rest.value)) else None)
  {
  }

  lemma DropTwoOfAppend<T>(a: seq<T>, b: seq<T>)
    requires |a| >= 2
    ensures (a + b)[2..] == a[2..] + b
  {
  }

  lemma {:induction false} ParseWordsAppend(a: seq<string>, b: seq<string>, x: Duration, y: Duration)
    requires ParseWords(a) == Some(x) && ParseWords(b) == Some(y)
    ensures ParseWords(a + b) == Some(Plus(x, y))
    decreases |a|
  {
    if a == [] {
      assert a + b == b;
    } else {
      assert |a| >= 2;
      ParseWordsStep(a);
      var first, rest := ParseComponent(a[0], a[1]), ParseWords(a[2..]);
      assert first.Some? && rest.Some? && x == Plus(first.value, rest.value);
      ParseWordsAppend(a[2..], b, rest.value, y);
      var ab := a + b;
      DropTwoOfAppend(a, b);
      assert ab[0] == a[0] && ab[1] == a[1];
      ParseWordsStep(ab);
      assert Plus(x, y) == Plus(first.value, Plus(rest.value, y));
    }
  }

  /** A numeral, a space and a space-free word split into those two words. */
  lemma PairWords(value: int, word: string)
    requires ' ' !in word
    ensures Words(IntToString(value) + " " + word) == [IntToString(value), word]
  {
    WordsSplit(IntToString(value), word);
    WordsOfSpaceFree(IntToString(value));
    WordsOfSpaceFree(word);
  }

  /** One "N unit" part splits into the numeral and the (possibly plural) unit. */
  lemma ComponentWords(value: int, unit: string)
    requires ' ' !in unit
    ensures WordsOf([Component(value, unit)]) == [IntToString(value), unit + (if value > 1 then "s" else "")]
  {
    var word := unit + (if value > 1 then "s" else "");
    assert ' ' !in word;
    assert Component(value, unit) == IntToString(value) + " " + word;
    PairWords(value, word);
    assert WordsOf([Component(value, unit)]) == Words(Component(value, unit)) + WordsOf([]);
  }

  /** A numeral followed by a unit word parses to that single component. */
  lemma PairParses(value: int, unit: string, word: string)
    requires word == unit || word == unit + "s"
    requires unit == "year" || unit == "month" || unit == "day"
    ensures ParseWords([IntToString(value), word]) == Some(
      if unit == "year" then Duration(value, 0, 0)
      else if unit == "month" then Duration(0, value, 0)
      else Duration(0, 0, value))
  {
    IntToStringRoundTrip(value);
    var ws := [IntToString(value), word];
    assert ws[2..] == [];
    assert word[0] == unit[0];
    if unit != "year" {
      assert word != "year" && word != "years";
    }
    if unit == "day" {
      assert word != "month" && word != "months";
    }
  }

  /** The words of one part parse back to that component alone. */
  lemma PartParses(value: int, unit: string)
    requires unit == "year" || unit == "month" || unit == "day"
    ensures ParseWords(WordsOf(Part(value, unit))) == Some(
      if unit == "year" then Duration(value, 0, 0)
      else if unit == "month" then Duration(0, value, 0)
      else Duration(0, 0, value))
  {
    if value != 0 {
      ComponentWords(value, unit);
      PairParses(value, unit, unit + (if value > 1 then "s" else ""));
    }
  }

  /** The fallback text "0 days" reads back as the zero duration. */
  lemma ZeroDaysParses()
    ensures ParseDuration("0 days") == Some(Duration(0, 0, 0))
  {
    var zero := IntToString(0);
    assert "0 days" == zero + " " + "days";
    PairWords(0, "days");
    PairParses(0, "day", "days");
  }

  /** The words of the non-empty parts of a duration read back as that duration. */
  lemma ComponentsRoundTrip(d: Duration)
    ensures ParseWords(WordsOf(Components(d))) == Some(d)
  {
    var y, m, n := Part(d.years, "year"), Part(d.months, "month"), Part(d.days, "day");
    var wy, wm, wn := WordsOf(y), WordsOf(m), WordsOf(n);
    assert WordsOf(Components(d)) == (wy + wm) + wn by {
      assert Components(d) == (y + m) + n;
      WordsOfAppend(y + m, n);
      WordsOfAppend(y, m);
    }
    assert ParseWords(wy + wm) == Some(Duration(d.years, d.months, 0)) by {
      PartParses(d.years, "year");
      PartParses(d.months, "month");
      ParseWordsAppend(wy, wm, Duration(d.years, 0, 0), Duration(0, d.months, 0));
    }
    assert ParseWords(wn) == Some(Duration(0, 0, d.days)) by {
      PartParses(d.days, "day");
    }
    ParseWordsAppend(wy + wm, wn, Duration(d.years, d.months, 0), Duration(0, 0, d.days));
  }

  /** Reading back the text format_duration produces gives the decomposition of the day count. */
  lemma FormatDurationRoundTrip(elapsedDays: int)
    ensures ParseDuration(FormatDuration(elapsedDays)) == Some(Decompose(elapsedDays))
  {
    var d := Decompose(elapsedDays);
    var parts := Components(d);
    if parts == [] {
      assert d == Duration(0, 0, 0);
      ZeroDaysParses();
    } else {
      assert FormatDuration(elapsedDays) == JoinWords(parts);
      JoinWordsSplit(parts);
      ComponentsRoundTrip(d);
    }
  }

  // ---------------------------------------------------------------------------
  // Ordinal day suffix (format_date_ddmmyyyy and format_iso_date)
  // ---------------------------------------------------------------------------

  /** The suffix both long-date formatters attach to the day of the month. */
  function DaySuffix(day: int): (s: string)
    ensures s == "st" <==> day == 1 || day == 21 || day == 31
    ensures s == "nd" <==> day == 2
    ensures s == "rd" <==> day == 3
    ensures s == "th" <==> !(day in {1, 2, 3, 21, 31})
  {
    if day == 1 || day == 21 || day == 31 then "st"
    else if day == 2 then "nd"
    else if day == 3 then "rd"
    else "th"
  }

  /** The English ordinal suffix: "th" for 11 to 13, otherwise by the last digit. */
  function EnglishOrdinalSuffix(day: nat): string {
    if 11 <= day % 100 <= 13 then "th"
    else if day % 10 == 1 then "st"
    else if day % 10 == 2 then "nd"
    else if day % 10 == 3 then "rd"
    else "th"
  }

  /** On the days of a month the formatters' rule departs from English ordinals exactly at 22 and 23. */
  lemma DaySuffixAgainstEnglish(day: int)
    requires 1 <= day <= 31
    ensures DaySuffix(day) == EnglishOrdinalSuffix(day) <==> day != 22 && day != 23
  {
  }

  /** The day of the month followed by its suffix, "21st". */
  function OrdinalDay(day: int): string {
    IntToString(day) + DaySuffix(day)
  }

  /** The ordinal day text is the day's digits followed by its two-letter suffix, and reads back as the day. */
  lemma {:induction false} OrdinalDayRoundTrip(day: nat)
    ensures var t := OrdinalDay(day);
      && |t| >= 3
      && AllDigits(t[..|t| - 2])
      && DigitsValue(t[..|t| - 2]) == day
      && t[|t| - 2..] == DaySuffix(day)
  {
    var t := OrdinalDay(day);
    assert t[..|t| - 2] == NatToString(day);
    NatToStringRoundTrip(day);
  }

  /** format_date_ddmmyyyy, on a date already parsed from "%Y-%m-%d". */
  function FormatDateDdMmYyyy(date: Date): LongDate {
    LongDate(date.month, OrdinalDay(date.day), date.year)
  }

  /** format_iso_date, on a timestamp already parsed from "%Y-%m-%dT%H:%M:%SZ". */
  function FormatIsoDate(timestamp: Timestamp): LongDate {
    LongDate(timestamp.date.month, OrdinalDay(timestamp.date.day), timestamp.date.year)
  }

  /** An ISO timestamp is rendered exactly as its date alone is, suffix rule included. */
  lemma IsoDateMatchesCalendarDate(timestamp: Timestamp)
    ensures FormatIsoDate(timestamp) == FormatDateDdMmYyyy(timestamp.date)
    ensures FormatIsoDate(timestamp).day[|IntToString(timestamp.date.day)|..] == DaySuffix(timestamp.date.day)
  {
  }
}
