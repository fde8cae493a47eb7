/** The date column of a row: every match of `(\d{1,2}\.\d{1,2}\.\d{4})`,
    scanned left to right without overlap, and the half-open day range built
    from the first one or two of them (`parseDateRange`, `parseGermanDate`). */
module DateRange {
  import opened Wrappers
  import opened Text
  import opened Dates

  /** The day, month and year numbers of one `D.M.YYYY` match, as written. */
  datatype DateParts = DateParts(day: nat, month: nat, year: nat)

  /** The number of digits, at most `max`, that start at index `i`: a greedy `\d{1,max}`. */
  function DigitRun(s: string, i: nat, max: nat): (k: nat)
    requires i <= |s|
    ensures k <= max && i + k <= |s|
    ensures DigitsAt(s, i, k)
    ensures k < max && i + k < |s| ==> !IsDigit(s[i + k])
    decreases max
  {
    if max == 0 || i == |s| || !IsDigit(s[i]) then 0
    else
      var k := 1 + DigitRun(s, i + 1, max - 1);
      assert s[i..i + k] == [s[i]] + s[i + 1..i + k];
      k
  }

  /** `n` decimal digits stand at index `i`. */
  predicate DigitsAt(s: string, i: nat, n: nat) {
    i + n <= |s| && forall c :: c in s[i..i + n] ==> IsDigit(c)
  }

  /** The pattern `\d{1,2}\.\d{1,2}\.\d{4}` read at index `i` with a day of `a`
      digits and a month of `b` digits: one of the ways the regex can match there. */
  predicate RegexAt(s: string, i: nat, a: nat, b: nat) {
    && 1 <= a <= 2 && 1 <= b <= 2 && i + a + b + 6 <= |s|
    && DigitsAt(s, i, a) && s[i + a] == '.'
    && DigitsAt(s, i + a + 1, b) && s[i + a + b + 1] == '.'
    && DigitsAt(s, i + a + b + 2, 4)
  }

  /** The numbers the three digit groups of such a reading denote. */
  function RegexParts(s: string, i: nat, a: nat, b: nat): (p: DateParts)
    requires RegexAt(s, i, a, b)
    ensures p.day < 100 && p.month < 100 && p.year < 10000
  {
    var day, month, year := s[i..i + a], s[i + a + 1..i + a + 1 + b], s[i + a + b + 2..i + a + b + 6];
    assert forall j :: 0 <= j < |day| ==> day[j] in day;
    assert forall j :: 0 <= j < |month| ==> month[j] in month;
    assert forall j :: 0 <= j < |year| ==> year[j] in year;
    assert Pow10(2) == 100 && Pow10(4) == 10000;
    DateParts(DigitsValue(day), DigitsValue(month), DigitsValue(year))
  }

  /** A reading of the pattern has the greedy digit runs: when a second digit
      follows, a one-digit group would need a `.` where that digit stands. */
  lemma RegexAtGreedy(s: string, i: nat, a: nat, b: nat)
    requires RegexAt(s, i, a, b)
    ensures a == DigitRun(s, i, 2)
    ensures b == DigitRun(s, i + a + 1, 2)
    ensures DigitRun(s, i + a + b + 2, 4) == 4
  {
    RunOfDigits(s, i, a, 2);
    RunOfDigits(s, i + a + 1, b, 2);
    RunOfDigits(s, i + a + b + 2, 4, 4);
  }

  /** `n` digits that end the run, at the bound or before a non-digit, are what
      the greedy run takes. */
  lemma RunOfDigits(s: string, i: nat, n: nat, max: nat)
    requires DigitsAt(s, i, n) && n <= max
    requires n == max || (i + n < |s| && !IsDigit(s[i + n]))
    ensures DigitRun(s, i, max) == n
  {
  }


  /** The regex anchored at index `i`: on a match, the numbers it holds and the
      index just past it (`MatchAtIffRegex` and `MatchAtRegex` tie it to the pattern). */
  function MatchAt(s: string, i: nat): (r: Option<(DateParts, nat)>)
    requires i <= |s|
    ensures r.Some? ==> i + 8 <= r.value.1 <= |s|
    ensures r.Some? ==> r.value.0.day < 100 && r.value.0.month < 100 && r.value.0.year < 10000
  {
    var dayLen := DigitRun(s, i, 2);
    var monthAt := i + dayLen + 1;
    if dayLen == 0 || monthAt > |s| || s[monthAt - 1] != '.' then None
    else
      var monthLen := DigitRun(s, monthAt, 2);
      var yearAt := monthAt + monthLen + 1;
      if monthLen == 0 || yearAt > |s| || s[yearAt - 1] != '.' then None
      else if DigitRun(s, yearAt, 4) != 4 then None
      else
        assert RegexAt(s, i, dayLen, monthLen);
        Some((RegexParts(s, i, dayLen, monthLen), yearAt + 4))
  }

  /** The regex matches at `i` exactly when some reading of the pattern fits there. */
  lemma MatchAtIffRegex(s: string, i: nat)
    requires i <= |s|
    ensures MatchAt(s, i).Some? <==> exists a, b :: RegexAt(s, i, a, b)
  {
    if MatchAt(s, i).Some? {
      MatchAtSound(s, i);
    } else {
      forall a, b | RegexAt(s, i, a, b)
        ensures false
      {
        MatchAtRegex(s, i, a, b);
      }
    }
  }

  /** A match found at `i` is a reading of the pattern there: the greedy day and
      month runs. */
  lemma MatchAtSound(s: string, i: nat)
    requires i <= |s| && MatchAt(s, i).Some?
    ensures RegexAt(s, i, DigitRun(s, i, 2), DigitRun(s, i + DigitRun(s, i, 2) + 1, 2))
  {
  }

  /** Any reading of the pattern at `i` is the match found there, with its numbers
      and its end; so backtracking finds nothing the greedy runs miss. */
  lemma MatchAtRegex(s: string, i: nat, a: nat, b: nat)
    requires RegexAt(s, i, a, b)
    ensures MatchAt(s, i) == Some((RegexParts(s, i, a, b), i + a + b + 6))
  {
    RegexAtGreedy(s, i, a, b);
    MatchAtOfRuns(s, i, a, b);
  }

  /** The greedy runs followed by the two dots and four year digits give the match. */
  lemma MatchAtOfRuns(s: string, i: nat, a: nat, b: nat)
    requires i + a + 1 <= |s| && a == DigitRun(s, i, 2) && 1 <= a && s[i + a] == '.'
    requires i + a + b + 2 <= |s| && b == DigitRun(s, i + a + 1, 2) && 1 <= b && s[i + a + b + 1] == '.'
    requires DigitRun(s, i + a + b + 2, 4) == 4
    ensures RegexAt(s, i, a, b) && MatchAt(s, i) == Some((RegexParts(s, i, a, b), i + a + b + 6))
  {
    assert DigitsAt(s, i, a) && DigitsAt(s, i + a + 1, b) && DigitsAt(s, i + a + b + 2, 4);
    assert RegexAt(s, i, a, b);
  }

  /** At one index the pattern has at most one reading. */
  lemma RegexAtUnique(s: string, i: nat, a: nat, b: nat, a': nat, b': nat)
    requires RegexAt(s, i, a, b) && RegexAt(s, i, a', b')
    ensures a == a' && b == b'
  {
    RegexAtGreedy(s, i, a, b);
    RegexAtGreedy(s, i, a', b');
  }

  /** `matchAll` with the global flag, from index `i` on. Every match takes at
      least eight characters. */
  function MatchesFrom(s: string, i: nat): (ms: seq<DateParts>)
    requires i <= |s|
    ensures 8 * |ms| <= |s| - i
    decreases |s| - i
  {
    if i == |s| then []
    else
      match MatchAt(s, i)
      case Some((parts, next)) => [parts] + MatchesFrom(s, next)
      case None => MatchesFrom(s, i + 1)
  }

  /** All matches in the text; a text shorter than eight characters has none. */
  function DateMatches(s: string): (ms: seq<DateParts>)
    ensures 8 * |ms| <= |s|
  {
    MatchesFrom(s, 0)
  }

  /** No match starts at an index from `i` up to, not including, `j`. */
  predicate NoMatchBetween(s: string, i: nat, j: nat)
    requires i <= j <= |s|
    decreases j - i
  {
    i == j || (MatchAt(s, i).None? && NoMatchBetween(s, i + 1, j))
  }

  lemma {:induction false} NoMatchBetweenAll(s: string, i: nat, j: nat)
    requires i <= j <= |s|
    requires forall k :: i <= k < j ==> MatchAt(s, k).None?
    ensures NoMatchBetween(s, i, j)
    decreases j - i
  {
    if i < j {
      NoMatchBetweenAll(s, i + 1, j);
    }
  }

  /** The scan passes over indices where the pattern does not match. */
  lemma {:induction false} MatchesFromSkips(s: string, i: nat, j: nat)
    requires i <= j <= |s| && NoMatchBetween(s, i, j)
    ensures MatchesFrom(s, i) == MatchesFrom(s, j)
    decreases j - i
  {
    if i < j {
      MatchesFromStep(s, i);
      MatchesFromSkips(s, i + 1, j);
    }
  }

  /** Without a match at `i`, the scan moves on by one index. */
  lemma MatchesFromStep(s: string, i: nat)
    requires i < |s| && MatchAt(s, i).None?
    ensures MatchesFrom(s, i) == MatchesFrom(s, i + 1)
  {
  }

  /** The next match is the leftmost one, and the scan resumes where it ends, so
      matches never overlap. */
  lemma MatchesFromLeftmost(s: string, i: nat, j: nat)
    requires i <= j < |s|
    requires forall k :: i <= k < j ==> MatchAt(s, k).None?
    requires MatchAt(s, j).Some?
    ensures MatchesFrom(s, i) == [MatchAt(s, j).value.0] + MatchesFrom(s, MatchAt(s, j).value.1)
  {
    NoMatchBetweenAll(s, i, j);
    MatchesFromSkips(s, i, j);
  }

  /** Without a match from `i` on, the scan finds nothing. */
  lemma MatchesFromNone(s: string, i: nat)
    requires i <= |s|
    requires forall k :: i <= k < |s| ==> MatchAt(s, k).None?
    ensures MatchesFrom(s, i) == []
  {
    NoMatchBetweenAll(s, i, |s|);
    MatchesFromSkips(s, i, |s|);
  }

  /** Every match found is a reading of the pattern somewhere in the text, with
      that reading's numbers. */
  lemma {:induction false} MatchesFromElements(s: string, i: nat)
    requires i <= |s|
    ensures forall m :: m in MatchesFrom(s, i) ==>
      exists j, a, b :: i <= j && RegexAt(s, j, a, b) && m == RegexParts(s, j, a, b)
    decreases |s| - i
  {
    if i < |s| {
      match MatchAt(s, i)
      case Some((parts, next)) =>
        MatchesFromElements(s, next);
        MatchAtIffRegex(s, i);
        var a, b :| RegexAt(s, i, a, b);
        MatchAtRegex(s, i, a, b);
        assert MatchesFrom(s, i) == [parts] + MatchesFrom(s, next);
      case None =>
        MatchesFromElements(s, i + 1);
    }
  }

  /** `parseGermanDate`: `new Date(Date.UTC(year, month - 1, day))`. */
  function PartsToDate(p: DateParts): (d: Date)
    ensures Valid(d)
  {
    UtcDate(p.day, p.month, p.year)
  }

  /** The range as days: `null` without a match; from the first match to the day
      after the second match, or after the first when there is only one. */
  function DateRangeOf(raw: string): Option<(Date, Date)> {
    RangeOfMatches(DateMatches(raw))
  }

  /** The range built from the list of matches. */
  function RangeOfMatches(ms: seq<DateParts>): Option<(Date, Date)> {
    if ms == [] then None
    else
      var start := PartsToDate(ms[0]);
      var endValue := if |ms| >= 2 then PartsToDate(ms[1]) else PartsToDate(ms[0]);
      Some((start, AddDays(endValue, 1)))
  }

  /** What `parseDateRange` returns: `{ startDate, endDateExclusive }` as ISO strings. */
  datatype IsoRange = IsoRange(startDate: string, endDateExclusive: string)

  function ParseDateRange(raw: string): (r: Option<IsoRange>)
    ensures r.None? <==> DateMatches(raw) == []
    ensures r.Some? ==> r.value.startDate == ToIsoDate(PartsToDate(DateMatches(raw)[0]))
    ensures r.Some? ==>
      var last := if |DateMatches(raw)| >= 2 then DateMatches(raw)[1] else DateMatches(raw)[0];
      r.value.endDateExclusive == ToIsoDate(NextDay(PartsToDate(last)))
  {
    ParseDateRangeCases(raw);
    match DateRangeOf(raw)
    case None => None
    case Some((start, endExclusive)) => Some(IsoRange(ToIsoDate(start), ToIsoDate(endExclusive)))
  }

  /** The three cases by number of matches: none gives `null`, one gives a
      one-day range, two or more give the first through the second inclusive,
      whatever follows them. */
  lemma ParseDateRangeCases(raw: string)
    ensures DateRangeOf(raw).None? <==> DateMatches(raw) == []
    ensures |DateMatches(raw)| == 1 ==>
      var d := PartsToDate(DateMatches(raw)[0]);
      DateRangeOf(raw) == Some((d, NextDay(d)))
    ensures |DateMatches(raw)| >= 2 ==>
      DateRangeOf(raw) == Some((PartsToDate(DateMatches(raw)[0]), NextDay(PartsToDate(DateMatches(raw)[1]))))
  {
    var ms := DateMatches(raw);
    if ms != [] {
      AddOneDay(PartsToDate(ms[0]));
      if |ms| >= 2 {
        AddOneDay(PartsToDate(ms[1]));
      }
    }
  }

  /** The range is non-empty exactly when the second date is not earlier than the
      first; with a single date it always is. */
  lemma RangeNonEmptyUnlessReversed(raw: string)
    requires DateRangeOf(raw).Some?
    ensures var ms := DateMatches(raw);
      var (start, endExclusive) := DateRangeOf(raw).value;
      Before(start, endExclusive) <==> (|ms| == 1 || !Before(PartsToDate(ms[1]), PartsToDate(ms[0])))
  {
    var ms := DateMatches(raw);
    ParseDateRangeCases(raw);
    if |ms| >= 2 {
      NoDayBetween(PartsToDate(ms[1]), PartsToDate(ms[0]));
    }
  }

  /** `D.M.YYYY` written with two-digit day and month. */
  function GermanDate(p: DateParts): string
    requires p.day < 100 && p.month < 100 && p.year < 10000
  {
    PadDigits(p.day, 2) + "." + PadDigits(p.month, 2) + "." + PadDigits(p.year, 4)
  }

  /** A written date at index `i` is matched there, with its own numbers. */
  lemma {:induction false} MatchAtGermanDate(s: string, i: nat, p: DateParts)
    requires p.day < 100 && p.month < 100 && p.year < 10000
    requires i + 10 <= |s| && s[i..i + 10] == GermanDate(p)
    ensures MatchAt(s, i) == Some((p, i + 10))
  {
    var g := GermanDate(p);
    assert s[i] == g[0] && s[i + 1] == g[1] && s[i + 2] == g[2];
    assert s[i + 3] == g[3] && s[i + 4] == g[4] && s[i + 5] == g[5];
    assert s[i + 6] == g[6] && s[i + 7] == g[7] && s[i + 8] == g[8] && s[i + 9] == g[9];
    assert DigitRun(s, i, 2) == 2;
    assert DigitRun(s, i + 3, 2) == 2;
    assert DigitRun(s, i + 6, 4) == 4;
    assert s[i..i + 2] == PadDigits(p.day, 2);
    assert s[i + 3..i + 5] == PadDigits(p.month, 2);
    assert s[i + 6..i + 10] == PadDigits(p.year, 4);
    DigitsValuePad(p.day, 2);
    DigitsValuePad(p.month, 2);
    DigitsValuePad(p.year, 4);
  }

  /** A cell holding one written date has exactly that match. */
  lemma SingleDateMatches(p: DateParts)
    requires p.day < 100 && p.month < 100 && p.year < 10000
    ensures DateMatches(GermanDate(p)) == [p]
  {
    var s := GermanDate(p);
    assert s[0..10] == s;
    MatchAtGermanDate(s, 0, p);
    assert MatchesFrom(s, 10) == [];
  }

  /** A cell `A - B` has exactly the two matches `A` and `B`, in that order. */
  lemma TwoDatesMatch(a: DateParts, b: DateParts)
    requires a.day < 100 && a.month < 100 && a.year < 10000
    requires b.day < 100 && b.month < 100 && b.year < 10000
    ensures DateMatches(GermanDate(a) + " - " + GermanDate(b)) == [a, b]
  {
    var s := GermanDate(a) + " - " + GermanDate(b);
    assert s[0..10] == GermanDate(a);
    assert s[13..23] == GermanDate(b);
    MatchAtGermanDate(s, 0, a);
    MatchAtGermanDate(s, 13, b);
    assert s[10] == ' ' && s[11] == '-' && s[12] == ' ';
    assert MatchesFrom(s, 23) == [];
    assert MatchesFrom(s, 13) == [b];
    assert MatchAt(s, 12).None?;
    assert MatchesFrom(s, 12) == [b];
    assert MatchAt(s, 11).None?;
    assert MatchesFrom(s, 11) == [b];
    assert MatchAt(s, 10).None?;
    assert MatchesFrom(s, 10) == [b];
  }

  lemma Digits2025()
    ensures PadDigits(1, 2) == "01" && PadDigits(2, 2) == "02"
    ensures PadDigits(3, 2) == "03" && PadDigits(4, 2) == "04"
    ensures PadDigits(2025, 4) == "2025"
  {
    assert PadDigits(0, 0) == "";
    assert PadDigits(0, 1) == "0";
    assert PadDigits(2, 1) == "2";
    assert PadDigits(20, 2) == "20";
    assert PadDigits(202, 3) == "202";
  }

  lemma IsoScenarioDates()
    ensures ToIsoDate(Date(2025, 3, 1)) == "2025-03-01"
    ensures ToIsoDate(Date(2025, 3, 2)) == "2025-03-02"
    ensures ToIsoDate(Date(2025, 3, 4)) == "2025-03-04"
  {
    Digits2025();
  }

  lemma SingleDayText()
    ensures GermanDate(DateParts(1, 3, 2025)) == "01.03.2025"
  {
    Digits2025();
  }

  lemma SingleDayRange()
    ensures DateRangeOf("01.03.2025") == Some((Date(2025, 3, 1), Date(2025, 3, 2)))
  {
    var p := DateParts(1, 3, 2025);
    SingleDayText();
    SingleDateMatches(p);
    UtcDateOfValid(1, 3, 2025);
    AddOneDay(Date(2025, 3, 1));
  }

  /** A single date: `01.03.2025` is the range from 2025-03-01 to 2025-03-02. */
  lemma SingleDayScenario()
    ensures ParseDateRange("01.03.2025") == Some(IsoRange("2025-03-01", "2025-03-02"))
  {
    SingleDayRange();
    IsoScenarioDates();
  }

  lemma ThirdOfMarchText()
    ensures GermanDate(DateParts(3, 3, 2025)) == "03.03.2025"
  {
    Digits2025();
  }

  lemma TwoDayText()
    ensures GermanDate(DateParts(1, 3, 2025)) + " - " + GermanDate(DateParts(3, 3, 2025)) == "01.03.2025 - 03.03.2025"
  {
    SingleDayText();
    ThirdOfMarchText();
  }

  lemma TwoDayRange()
    ensures DateRangeOf("01.03.2025 - 03.03.2025") == Some((Date(2025, 3, 1), Date(2025, 3, 4)))
  {
    var a, b := DateParts(1, 3, 2025), DateParts(3, 3, 2025);
    TwoDayText();
    TwoDatesMatch(a, b);
    UtcDateOfValid(1, 3, 2025);
    UtcDateOfValid(3, 3, 2025);
    AddOneDay(Date(2025, 3, 3));
  }

  /** Two dates: `01.03.2025 - 03.03.2025` is the range from 2025-03-01 to 2025-03-04. */
  lemma TwoDayScenario()
    ensures ParseDateRange("01.03.2025 - 03.03.2025") == Some(IsoRange("2025-03-01", "2025-03-04"))
  {
    TwoDayRange();
    IsoScenarioDates();
  }

  lemma DigitValues2025()
    ensures DigitsValue("1") == 1 && DigitsValue("3") == 3 && DigitsValue("2025") == 2025
  {
    assert "1"[..0] == [] && "3"[..0] == [];
    assert "2025"[..3] == "202" && "202"[..2] == "20" && "20"[..1] == "2" && "2"[..0] == [];
  }

  /** `1.3.2025` reads as the pattern with a one-digit day and month. */
  lemma ShortDateReading()
    ensures RegexAt("1.3.2025", 0, 1, 1)
    ensures RegexParts("1.3.2025", 0, 1, 1) == DateParts(1, 3, 2025)
  {
    var s := "1.3.2025";
    assert s[0..1] == "1" && s[2..3] == "3" && s[4..8] == "2025";
    assert DigitsAt(s, 0, 1) && DigitsAt(s, 2, 1) && DigitsAt(s, 4, 4);
    DigitValues2025();
  }

  /** Single-digit day and month: `1.3.2025` is matched as 1 March 2025. */
  lemma ShortDateMatches()
    ensures DateMatches("1.3.2025") == [DateParts(1, 3, 2025)]
  {
    var s := "1.3.2025";
    ShortDateReading();
    MatchAtRegex(s, 0, 1, 1);
    assert MatchesFrom(s, 0) == [DateParts(1, 3, 2025)] + MatchesFrom(s, 8);
  }

  /** `1.3.2025` gives the same range as `01.03.2025`: 2025-03-01 to 2025-03-02. */
  lemma ShortDateScenario()
    ensures ParseDateRange("1.3.2025") == Some(IsoRange("2025-03-01", "2025-03-02"))
  {
    ShortDateMatches();
    UtcDateOfValid(1, 3, 2025);
    AddOneDay(Date(2025, 3, 1));
    IsoScenarioDates();
  }
}
