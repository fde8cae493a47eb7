/** The Python package's core (`sportkalender/core.py`): the event record and
    its summary, the strict date-range parser, the loader with its sport filter,
    duplicate removal and sort, and the list of sports. Where the browser code
    normalises an impossible date, this one raises, and a raise ends the load. */
module PyCore {
  import opened Wrappers
  import opened Text
  import opened Sorting
  import opened Dates
  import DateRange
  import Events

  /** `SportEvent`: a frozen record, so two events with equal fields are equal. */
  datatype SportEvent = SportEvent(
    startDate: Date,
    endDateExclusive: Date,
    title: string,
    sport: string,
    location: string)

  /** The exceptions the parser can raise. */
  datatype PyError = ValueError | OverflowError

  /** Sports whose name is not put in front of the title. */
  const PrefixExceptions: set<string> := {"diverse", "multisportveranstaltung", "marathon"}

  /** `SportEvent.summary`: the title alone for an empty sport or one of the
      exceptions (compared case-folded), otherwise "sport - title". */
  function EventSummary(e: SportEvent): (s: string)
    ensures s == e.title <==> e.sport == "" || Lower(e.sport) in PrefixExceptions
    ensures s != e.title ==> s == e.sport + " - " + e.title
  {
    if e.sport == "" then e.title
    else if Lower(e.sport) in PrefixExceptions then e.title
    else e.sport + " - " + e.title
  }

  /** The Python summary is the browser's summary in its default title format. */
  lemma EventSummaryAgrees(e: SportEvent)
    ensures EventSummary(e) == Events.Summary(e.title, e.sport, Events.SportAndEvent)
  {
  }

  // ---------------------------------------------------------------------------
  // parse_date_range

  /** `raw.replace("\xa0", " ")`. */
  function ReplaceNbsp(s: string): (r: string)
    ensures |r| == |s|
    ensures forall i :: 0 <= i < |s| ==> r[i] == if s[i] == '\U{A0}' then ' ' else s[i]
  {
    if s == [] then [] else [if s[0] == '\U{A0}' then ' ' else s[0]] + ReplaceNbsp(s[1..])
  }

  /** `datetime.strptime(text, "%d.%m.%Y").date()` on a `D.M.YYYY` match: the
      day, month and year as written when they name a day from year 1 on, and
      `ValueError` otherwise. */
  function StrpDate(p: DateRange.DateParts): (r: Result<Date, PyError>)
    ensures r.Success? <==> p.year >= 1 && Valid(Date(p.year, p.month, p.day))
    ensures r.Success? ==> r.value == Date(p.year, p.month, p.day)
    ensures r.Failure? ==> r.error == ValueError
  {
    var d := Date(p.year, p.month, p.day);
    if p.year >= 1 && Valid(d) then Success(d) else Failure(ValueError)
  }

  /** `date.max`: the last day a `date` holds. */
  const MaxDate: Date := Date(9999, 12, 31)

  /** `d + timedelta(days=1)`: the next day, or `OverflowError` past `date.max`. */
  function PlusOneDay(d: Date): (r: Result<Date, PyError>)
    requires Valid(d)
    ensures r.Failure? <==> d == MaxDate
    ensures r.Failure? ==> r.error == OverflowError
    ensures r.Success? ==> r.value == NextDay(d)
  {
    if d == MaxDate then Failure(OverflowError) else Success(NextDay(d))
  }

  /** The range built from the list of matches: `None` without a match, else
      from the first date to the day after the second one, or after the first
      when there is only one; the first date is read before the second, and
      the step past `date.max` comes last. */
  function RangeOfMatches(ms: seq<DateRange.DateParts>): Result<Option<(Date, Date)>, PyError> {
    if ms == [] then Success(None)
    else
      match StrpDate(ms[0])
      case Failure(err) => Failure(err)
      case Success(start) =>
        var endValue := if |ms| >= 2 then StrpDate(ms[1]) else Success(start);
        match endValue
        case Failure(err) => Failure(err)
        case Success(end) =>
          match PlusOneDay(end)
          case Failure(err) => Failure(err)
          case Success(next) => Success(Some((start, next)))
  }

  /** The text the pattern is searched in: no-break spaces made spaces, stripped. */
  function NormalizeRaw(raw: string): string {
    PyStrip(ReplaceNbsp(raw))
  }

  /** `parse_date_range`. */
  function ParseDateRange(raw: string): (r: Result<Option<(Date, Date)>, PyError>)
    ensures r == Success(None) <==> DateRange.DateMatches(NormalizeRaw(raw)) == []
    ensures r.Success? && r.value.Some? ==>
      var (start, endExclusive) := r.value.value;
      start.year >= 1 && Valid(start) && Valid(endExclusive)
  {
    RangeOfMatches(DateRange.DateMatches(NormalizeRaw(raw)))
  }

  /** The cases of `parse_date_range`: no match gives `None`; an impossible first
      or second date raises `ValueError`; a second date of `date.max` (or a
      single one) raises `OverflowError`; otherwise the range runs from the
      first date to the day after the second, or after the first when alone. */
  lemma RangeOfMatchesCases(ms: seq<DateRange.DateParts>)
    ensures RangeOfMatches(ms) == Success(None) <==> ms == []
    ensures ms != [] && StrpDate(ms[0]).Failure? ==> RangeOfMatches(ms) == Failure(ValueError)
    ensures |ms| >= 2 && StrpDate(ms[1]).Failure? ==> RangeOfMatches(ms) == Failure(ValueError)
    ensures |ms| == 1 && StrpDate(ms[0]).Success? ==>
      var d := StrpDate(ms[0]).value;
      RangeOfMatches(ms) == if d == MaxDate then Failure(OverflowError) else Success(Some((d, NextDay(d))))
    ensures |ms| >= 2 && StrpDate(ms[0]).Success? && StrpDate(ms[1]).Success? ==>
      var d, e := StrpDate(ms[0]).value, StrpDate(ms[1]).value;
      RangeOfMatches(ms) == if e == MaxDate then Failure(OverflowError) else Success(Some((d, NextDay(e))))
  {
  }

  /** Where the two parsers meet: on days that exist, from year 100 on, and
      short of `date.max`, Python's range is the browser's range. */
  lemma RangeAgreesWithBrowser(ms: seq<DateRange.DateParts>)
    requires ms != []
    requires ms[0].year >= 100 && Valid(Date(ms[0].year, ms[0].month, ms[0].day))
    requires |ms| >= 2 ==> ms[1].year >= 100 && Valid(Date(ms[1].year, ms[1].month, ms[1].day))
    requires var end := if |ms| >= 2 then ms[1] else ms[0];
      Date(end.year, end.month, end.day) != MaxDate
    ensures RangeOfMatches(ms) == Success(DateRange.RangeOfMatches(ms))
  {
    var first := ms[0];
    DateUtcOfValid(first);
    var end := if |ms| >= 2 then ms[1] else ms[0];
    DateUtcOfValid(end);
    AddOneDay(Date(end.year, end.month, end.day));
  }

  lemma DateUtcOfValid(p: DateRange.DateParts)
    requires p.year >= 100 && Valid(Date(p.year, p.month, p.day))
    ensures DateRange.PartsToDate(p) == Date(p.year, p.month, p.day)
  {
    UtcDateOfValid(p.day, p.month, p.year);
  }

  /** Where they part: the 31st of February raises `ValueError` here ... */
  lemma February31Raises()
    ensures RangeOfMatches([DateRange.DateParts(31, 2, 2025)]) == Failure(ValueError)
  {
    assert DaysInMonth(2025, 2) == 28;
  }

  /** ... and rolls over into March in the browser. */
  lemma February31RollsOver()
    ensures DateRange.RangeOfMatches([DateRange.DateParts(31, 2, 2025)]) == Some((Date(2025, 3, 3), Date(2025, 3, 4)))
  {
    var march3 := Date(2025, 3, 3);
    UtcDateRollsOver();
    AddOneDay(march3);
    assert NextDay(march3) == Date(2025, 3, 4);
  }

  /** The range is non-empty exactly when the second date is not earlier than
      the first; a reversed pair goes through as it is. */
  lemma RangeNonEmptyUnlessReversed(ms: seq<DateRange.DateParts>)
    requires RangeOfMatches(ms).Success? && RangeOfMatches(ms).value.Some?
    ensures var (start, endExclusive) := RangeOfMatches(ms).value.value;
      Before(start, endExclusive) <==>
        (|ms| == 1 || !Before(StrpDate(ms[1]).value, StrpDate(ms[0]).value))
  {
    if |ms| >= 2 {
      NoDayBetween(StrpDate(ms[1]).value, StrpDate(ms[0]).value);
    }
  }

  // ---------------------------------------------------------------------------
  // load_events_from_tsv

  /** The file as `open(encoding="utf-8-sig")` reads it: without a leading byte order mark. */
  function DropBom(text: string): (r: string)
    ensures |text| > 0 && text[0] == '\U{FEFF}' ==> r == text[1..]
    ensures !(|text| > 0 && text[0] == '\U{FEFF}') ==> r == text
  {
    if |text| > 0 && text[0] == '\U{FEFF}' then text[1..] else text
  }

  /** Universal newlines: `\r\n` and a lone `\r` read as `\n`. */
  function UniversalNewlines(s: string): (r: string)
    ensures '\r' !in r
    decreases |s|
  {
    if s == [] then []
    else if s[0] == '\r' then
      if |s| > 1 && s[1] == '\n' then "\n" + UniversalNewlines(s[2..]) else "\n" + UniversalNewlines(s[1..])
    else [s[0]] + UniversalNewlines(s[1..])
  }

  /** The lines the loop visits, without their line ends (`strip` removes
      those anyway); a last empty piece after a final line end is a blank line,
      which the loop skips. */
  function Lines(text: string): (lines: seq<string>)
    ensures forall i :: 0 <= i < |lines| ==> '\n' !in lines[i] && '\r' !in lines[i]
  {
    var normalized := UniversalNewlines(DropBom(text));
    var lines := Split(normalized, '\n');
    assert forall i :: 0 <= i < |lines| ==> lines[i] in lines;
    assert forall i, c :: 0 <= i < |lines| && c in lines[i] ==> c in normalized by {
      forall i, c | 0 <= i < |lines| && c in lines[i]
        ensures c in normalized
      {
        SplitKeepsChars(normalized, '\n', i, c);
      }
    }
    lines
  }

  /** Every character of a piece is a character of the split string. */
  lemma {:induction false} SplitKeepsChars(s: string, sep: char, i: nat, c: char)
    requires i < |Split(s, sep)| && c in Split(s, sep)[i]
    ensures c in s
  {
    if s != [] {
      var rest := Split(s[1..], sep);
      if s[0] == sep {
        if i > 0 {
          SplitKeepsChars(s[1..], sep, i - 1, c);
        }
      } else if i == 0 {
        if c != s[0] {
          SplitKeepsChars(s[1..], sep, 0, c);
        }
      } else {
        SplitKeepsChars(s[1..], sep, i, c);
      }
    }
  }

  /** `{item.strip().casefold() for item in include_sports if item.strip()}`. */
  function NormalizedFilters(wanted: set<string>): (filters: set<string>)
    ensures forall f :: f in filters <==> exists item :: item in wanted && PyStrip(item) != "" && f == Lower(PyStrip(item))
  {
    set item | item in wanted && PyStrip(item) != "" :: Lower(PyStrip(item))
  }

  /** The sport filter: an empty filter set (no filter given, or only blank
      entries) lets every sport through. */
  predicate Admits(filters: set<string>, sport: string) {
    filters == {} || Lower(sport) in filters
  }

  /** `[col.strip() for col in raw_line.split("\t")]`. */
  function Columns(line: string): (cols: seq<string>)
    ensures |cols| == |Split(line, '\t')| >= 1
  {
    var parts := Split(line, '\t');
    seq(|parts|, i requires 0 <= i < |parts| => PyStrip(parts[i]))
  }

  /** A line reaches the date parser when it is not blank, not a `###`
      comment, has at least three columns and is not the header. */
  predicate DataLine(line: string) {
    var cols := Columns(line);
    && PyStrip(line) != "" && !StartsWith(PyStrip(line), "###")
    && |cols| >= 3 && Lower(cols[0]) != "datum"
  }

  /** One turn of the loop: the event a line gives, `None` when the line is
      skipped, or the exception the date parser raises. The date is parsed
      before the sport filter is applied. */
  function ParseRow(line: string, filters: set<string>): (r: Result<Option<SportEvent>, PyError>)
    ensures !DataLine(line) ==> r == Success(None)
    ensures r.Success? && r.value.Some? ==> Admits(filters, r.value.value.sport)
  {
    if !DataLine(line) then Success(None)
    else
      var cols := Columns(line);
      match ParseDateRange(cols[0])
      case Failure(err) => Failure(err)
      case Success(None) => Success(None)
      case Success(Some((start, endExclusive))) =>
        if !Admits(filters, cols[2]) then Success(None)
        else Success(Some(SportEvent(start, endExclusive, cols[1], cols[2], Join(NonEmpty(cols[3..]), " "))))
  }

  /** A line raises exactly when it is a data line whose date column raises,
      whatever its sport: the filter is applied after the dates are read. */
  lemma ParseRowFails(line: string, filters: set<string>)
    ensures ParseRow(line, filters).Failure? <==> DataLine(line) && ParseDateRange(Columns(line)[0]).Failure?
  {
  }

  /** A line gives an event exactly when it is a data line with a date range
      and a sport the filter admits. */
  lemma ParseRowKeeps(line: string, filters: set<string>)
    ensures ParseRow(line, filters).Success? && ParseRow(line, filters).value.Some? <==>
      && DataLine(line)
      && ParseDateRange(Columns(line)[0]).Success? && ParseDateRange(Columns(line)[0]).value.Some?
      && Admits(filters, Columns(line)[2])
  {
    if DataLine(line) {
      var cols := Columns(line);
      var range := ParseDateRange(cols[0]);
      if range.Success? && range.value.Some? {
        var (start, endExclusive) := range.value.value;
        var e := SportEvent(start, endExclusive, cols[1], cols[2], Join(NonEmpty(cols[3..]), " "));
        assert ParseRow(line, filters) == if Admits(filters, cols[2]) then Success(Some(e)) else Success(None);
      }
    }
  }

  /** The event of a kept line: its dates, the title and sport columns, and the
      remaining non-empty columns joined by spaces as the location. */
  lemma ParseRowFields(line: string, filters: set<string>)
    requires ParseRow(line, filters).Success? && ParseRow(line, filters).value.Some?
    ensures var cols := Columns(line);
      && |cols| >= 3
      && ParseDateRange(cols[0]).Success? && ParseDateRange(cols[0]).value.Some?
      && var (start, endExclusive) := ParseDateRange(cols[0]).value.value;
      ParseRow(line, filters).value.value == SportEvent(start, endExclusive, cols[1], cols[2], Join(NonEmpty(cols[3..]), " "))
  {
  }

  /** The list the loop builds from `lines`: each new event appended, an event
      equal to one already there skipped, and the first exception ending it all. */
  function KeptEvents(lines: seq<string>, filters: set<string>): (r: Result<seq<SportEvent>, PyError>)
    ensures r.Success? ==> |r.value| <= |lines|
  {
    if lines == [] then Success([])
    else
      match KeptEvents(lines[..|lines| - 1], filters)
      case Failure(err) => Failure(err)
      case Success(kept) =>
        match ParseRow(lines[|lines| - 1], filters)
        case Failure(err) => Failure(err)
        case Success(None) => Success(kept)
        case Success(Some(e)) => if e in kept then Success(kept) else Success(kept + [e])
  }

  /** The sort key `(start, end, summary.casefold(), location.casefold())`:
      dates in calendar order, then the strings in code-point order. */
  predicate KeyLeq(a: SportEvent, b: SportEvent) {
    if a.startDate != b.startDate then Before(a.startDate, b.startDate)
    else if a.endDateExclusive != b.endDateExclusive then Before(a.endDateExclusive, b.endDateExclusive)
    else Events.KeysLeq([Lower(EventSummary(a)), Lower(a.location)], [Lower(EventSummary(b)), Lower(b.location)])
  }

  lemma BeforeTotal(a: Date, b: Date)
    ensures a == b || Before(a, b) || Before(b, a)
  {
  }

  lemma KeyLeqTotalPreorder()
    ensures TotalPreorder(KeyLeq)
  {
    forall a, b
      ensures KeyLeq(a, b) || KeyLeq(b, a)
    {
      BeforeTotal(a.startDate, b.startDate);
      BeforeTotal(a.endDateExclusive, b.endDateExclusive);
      Events.KeysLeqTotal([Lower(EventSummary(a)), Lower(a.location)], [Lower(EventSummary(b)), Lower(b.location)]);
    }
    forall a, b, c | KeyLeq(a, b) && KeyLeq(b, c)
      ensures KeyLeq(a, c)
    {
      KeyLeqTransitive(a, b, c);
    }
  }

  lemma KeyLeqTransitive(a: SportEvent, b: SportEvent, c: SportEvent)
    requires KeyLeq(a, b) && KeyLeq(b, c)
    ensures KeyLeq(a, c)
  {
    if a.startDate == b.startDate == c.startDate && a.endDateExclusive == b.endDateExclusive == c.endDateExclusive {
      Events.KeysLeqTransitive([Lower(EventSummary(a)), Lower(a.location)], [Lower(EventSummary(b)), Lower(b.location)],
        [Lower(EventSummary(c)), Lower(c.location)]);
    }
  }

  /** `load_events_from_tsv` as a function of the file's text and the filter. */
  function LoadedEvents(text: string, wanted: set<string>): (r: Result<seq<SportEvent>, PyError>)
    ensures r.Failure? <==> KeptEvents(Lines(text), NormalizedFilters(wanted)).Failure?
    ensures r.Success? ==> |r.value| <= |Lines(text)|
  {
    match KeptEvents(Lines(text), NormalizedFilters(wanted))
    case Failure(err) => Failure(err)
    case Success(kept) => Success(SortBy(kept, KeyLeq))
  }

  /** A failure stays a failure: the lines after it are never read. */
  lemma {:induction false} FailureEndsLoad(lines: seq<string>, filters: set<string>, i: nat)
    requires i <= |lines| && KeptEvents(lines[..i], filters).Failure?
    ensures KeptEvents(lines, filters) == KeptEvents(lines[..i], filters)
    decreases |lines| - i
  {
    if i < |lines| {
      KeptSnoc(lines, filters, i);
      FailureEndsLoad(lines, filters, i + 1);
    } else {
      assert lines[..i] == lines;
    }
  }

  /** One more line: the kept events of the longer prefix from those of the shorter one. */
  lemma KeptSnoc(lines: seq<string>, filters: set<string>, i: nat)
    requires i < |lines|
    ensures KeptEvents(lines[..i + 1], filters) ==
      match KeptEvents(lines[..i], filters)
      case Failure(err) => Failure(err)
      case Success(kept) =>
        match ParseRow(lines[i], filters)
        case Failure(err) => Failure(err)
        case Success(None) => Success(kept)
        case Success(Some(e)) => if e in kept then Success(kept) else Success(kept + [e])
  {
    var longer := lines[..i + 1];
    assert longer[..|longer| - 1] == lines[..i] && longer[|longer| - 1] == lines[i];
  }

  /** `load_events_from_tsv` as written: the loop with its `seen` set and
      `events` list, then the in-place sort. */
  method LoadEventsFromTsv(text: string, wanted: set<string>) returns (r: Result<seq<SportEvent>, PyError>)
    ensures r == LoadedEvents(text, wanted)
  {
    var filters := NormalizedFilters(wanted);
    var lines := Lines(text);
    var events: seq<SportEvent> := [];
    var seen: set<SportEvent> := {};
    for i := 0 to |lines|
      invariant KeptEvents(lines[..i], filters) == Success(events)
      invariant forall e :: e in seen <==> e in events
    {
      KeptSnoc(lines, filters, i);
      var parsed := ParseRow(lines[i], filters);
      if parsed.Failure? {
        FailureEndsLoad(lines, filters, i + 1);
        return Failure(parsed.error);
      }
      if parsed.value.Some? {
        var e := parsed.value.value;
        if e !in seen {
          seen := seen + {e};
          events := events + [e];
        }
      }
    }
    assert lines[..|lines|] == lines;
    r := Success(SortBy(events, KeyLeq));
  }

  /** The kept events hold no event twice and only events the filter admits. */
  lemma {:induction false} KeptEventsSpec(lines: seq<string>, filters: set<string>)
    requires KeptEvents(lines, filters).Success?
    ensures var kept := KeptEvents(lines, filters).value;
      forall i, j :: 0 <= i < j < |kept| ==> kept[i] != kept[j]
    ensures forall e :: e in KeptEvents(lines, filters).value ==> Admits(filters, e.sport)
  {
    if lines != [] {
      var init := lines[..|lines| - 1];
      KeptEventsSpec(init, filters);
      var prev := KeptEvents(init, filters).value;
      var row := ParseRow(lines[|lines| - 1], filters).value;
      assert KeptEvents(lines, filters).value
        == if row.Some? && row.value !in prev then prev + [row.value] else prev;
      if row.Some? && row.value !in prev {
        AppendNew(prev, row.value);
      }
    }
  }

  /** Appending an event not yet in a list of pairwise different events keeps them pairwise different. */
  lemma AppendNew(prev: seq<SportEvent>, e: SportEvent)
    requires forall i, j :: 0 <= i < j < |prev| ==> prev[i] != prev[j]
    requires e !in prev
    ensures var kept := prev + [e];
      forall i, j :: 0 <= i < j < |kept| ==> kept[i] != kept[j]
  {
    var kept := prev + [e];
    forall i, j | 0 <= i < j < |kept|
      ensures kept[i] != kept[j]
    {
      assert kept[i] == prev[i];
      if j < |prev| {
        assert kept[j] == prev[j];
      } else {
        assert prev[i] in prev;
      }
    }
  }

  /** What `load_events_from_tsv` returns: sorted by the key, no event twice,
      every event admitted by the filter, and exactly the kept events. */
  lemma LoadedEventsSpec(text: string, wanted: set<string>)
    requires LoadedEvents(text, wanted).Success?
    ensures var events := LoadedEvents(text, wanted).value;
      var kept := KeptEvents(Lines(text), NormalizedFilters(wanted)).value;
      && Sorted(events, KeyLeq)
      && multiset(events) == multiset(kept)
      && (forall i, j :: 0 <= i < j < |events| ==> events[i] != events[j])
      && (forall e :: e in events ==> Admits(NormalizedFilters(wanted), e.sport))
  {
    var filters := NormalizedFilters(wanted);
    var kept := KeptEvents(Lines(text), filters).value;
    var events := SortBy(kept, KeyLeq);
    KeyLeqTotalPreorder();
    SortBySorted(kept, KeyLeq);
    KeptEventsSpec(Lines(text), filters);
    forall i, j | 0 <= i < j < |events|
      ensures events[i] != events[j]
    {
      if events[i] == events[j] {
        TwiceCounted(events, i, j);
        DistinctOnce(kept, events[i]);
      }
    }
    forall e | e in events
      ensures Admits(filters, e.sport)
    {
      assert e in multiset(kept);
    }
  }

  /** An element found at two positions counts at least twice. */
  lemma TwiceCounted(s: seq<SportEvent>, i: nat, j: nat)
    requires i < j < |s| && s[i] == s[j]
    ensures multiset(s)[s[i]] >= 2
  {
    assert s == s[..j] + s[j..];
    assert s[i] in s[..j];
  }

  /** In a list without repeats each element counts once. */
  lemma {:induction false} DistinctOnce(s: seq<SportEvent>, x: SportEvent)
    requires forall i, j :: 0 <= i < j < |s| ==> s[i] != s[j]
    ensures multiset(s)[x] <= 1
  {
    if s != [] {
      var init := s[..|s| - 1];
      DistinctOnce(init, x);
      assert s == init + [s[|s| - 1]];
      if s[|s| - 1] == x {
        assert x !in init;
      }
    }
  }

  /** A filter of blank entries only is no filter. */
  lemma BlankFiltersAdmitAll(wanted: set<string>, sport: string)
    requires forall item :: item in wanted ==> PyStrip(item) == ""
    ensures Admits(NormalizedFilters(wanted), sport)
  {
  }

  /** A non-blank filter keeps exactly the sports that case-fold to one of its stripped entries. */
  lemma FilterAdmits(wanted: set<string>, sport: string)
    requires exists item :: item in wanted && PyStrip(item) != ""
    ensures Admits(NormalizedFilters(wanted), sport) <==>
      exists item :: item in wanted && PyStrip(item) != "" && Lower(sport) == Lower(PyStrip(item))
  {
    var filters := NormalizedFilters(wanted);
    var item :| item in wanted && PyStrip(item) != "";
    assert Lower(PyStrip(item)) in filters;
    assert Admits(filters, sport) <==> Lower(sport) in filters;
  }

  // ---------------------------------------------------------------------------
  // available_sports

  /** `available_sports`: the distinct non-empty sports, case-insensitively sorted. */
  function AvailableSports(events: seq<SportEvent>): (sports: seq<string>)
    ensures "" !in sports
    ensures forall x :: multiset(sports)[x] <= 1
  {
    var sports := Events.AvailableSports(seq(|events|, i requires 0 <= i < |events| => events[i].sport));
    assert "" !in multiset(sports);
    sports
  }

  lemma AvailableSportsSpec(events: seq<SportEvent>)
    ensures forall x :: multiset(AvailableSports(events))[x]
                     == if x != "" && exists e :: e in events && e.sport == x then 1 else 0
    ensures Sorted(AvailableSports(events), FoldLeq)
  {
    var names := seq(|events|, i requires 0 <= i < |events| => events[i].sport);
    Events.AvailableSportsSpec(names);
    forall x
      ensures x in names <==> exists e :: e in events && e.sport == x
    {
      if x in names {
        var i :| 0 <= i < |names| && names[i] == x;
        assert events[i] in events;
      }
      if exists e :: e in events && e.sport == x {
        var e :| e in events && e.sport == x;
        var i :| 0 <= i < |events| && events[i] == e;
        assert names[i] == x;
      }
    }
  }
}
