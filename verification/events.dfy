/** The event record of the browser code, the title it is shown and exported
    under (`buildSummary`), the key that identifies a row, the order the list
    and the calendar are sorted in, and the list of sports offered. */
module Events {
  import opened Text
  import opened Sorting

  /** The title-format select: `"event_only"` or anything else (`"sport_event"`). */
  datatype TitleFormat = SportAndEvent | EventOnly

  function TitleFormatOf(value: string): (f: TitleFormat)
    ensures f == EventOnly <==> value == "event_only"
  {
    if value == "event_only" then EventOnly else SportAndEvent
  }

  /** One calendar entry; the dates are ISO `YYYY-MM-DD` strings and the end is exclusive. */
  datatype Event = Event(
    id: string,
    startDate: string,
    endDateExclusive: string,
    title: string,
    sport: string,
    location: string)

  /** Sports whose name is not put in front of the title. */
  const NoPrefixSports: set<string> := {"diverse", "multisportveranstaltung", "marathon"}

  predicate TitleOnly(sport: string, format: TitleFormat) {
    format == EventOnly || sport == "" || Lower(sport) in NoPrefixSports
  }

  /** `buildSummary`: the title alone, or `<sport> - <title>`. */
  function Summary(title: string, sport: string, format: TitleFormat): (s: string)
    ensures s == title <==> TitleOnly(sport, format)
    ensures |title| <= |s| && s[|s| - |title|..] == title
    ensures s != title ==> |s| == |sport| + 3 + |title| && StartsWith(s, sport + " - ")
  {
    if TitleOnly(sport, format) then title else sport + " - " + title
  }

  function BuildSummary(e: Event, format: TitleFormat): (s: string)
    ensures s == e.title <==> TitleOnly(e.sport, format)
    ensures s != e.title ==> s == e.sport + " - " + e.title
  {
    Summary(e.title, e.sport, format)
  }

  /** The five fields joined by `|`: the duplicate key of a row and the seed of its UID. */
  function RowKey(startDate: string, endDate: string, title: string, sport: string, location: string): (key: string)
    ensures '|' !in startDate && '|' !in endDate && '|' !in title && '|' !in sport && '|' !in location ==>
      Split(key, '|') == [startDate, endDate, title, sport, location]
  {
    var fields := [startDate, endDate, title, sport, location];
    if forall i :: 0 <= i < 5 ==> '|' !in fields[i] then
      SplitJoin(fields, '|');
      Join(fields, "|")
    else
      Join(fields, "|")
  }

  function EventKey(e: Event): string {
    RowKey(e.startDate, e.endDateExclusive, e.title, e.sport, e.location)
  }

  lemma {:induction false} SplitAfterPart(a: string, sep: char, b: string)
    requires sep !in a
    ensures Split(a + [sep] + b, sep) == [a] + Split(b, sep)
  {
    if a == [] {
      assert [] + [sep] + b == [sep] + b;
      assert ([sep] + b)[1..] == b;
    } else {
      SplitAfterPart(a[1..], sep, b);
      assert (a + [sep] + b)[1..] == a[1..] + [sep] + b;
      assert [a[0]] + a[1..] == a;
    }
  }

  /** Joining pieces that do not hold the separator and splitting again gives the pieces back. */
  lemma {:induction false} SplitJoin(parts: seq<string>, sep: char)
    requires |parts| >= 1
    requires forall i :: 0 <= i < |parts| ==> sep !in parts[i]
    ensures Split(Join(parts, [sep]), sep) == parts
  {
    if |parts| == 1 {
      SplitNoSeparator(parts[0], sep);
    } else {
      SplitJoin(parts[1..], sep);
      SplitAfterPart(parts[0], sep, Join(parts[1..], [sep]));
      assert [parts[0]] + parts[1..] == parts;
    }
  }

  lemma {:induction false} SplitNoSeparator(s: string, sep: char)
    requires sep !in s
    ensures Split(s, sep) == [s]
  {
    if s != [] {
      SplitNoSeparator(s[1..], sep);
      assert [s[0]] + s[1..] == s;
    }
  }

  /** When no field holds a `|`, the key determines the five fields. */
  lemma RowKeyInjective(a: seq<string>, b: seq<string>)
    requires |a| == 5 && |b| == 5
    requires forall i :: 0 <= i < 5 ==> '|' !in a[i] && '|' !in b[i]
    requires RowKey(a[0], a[1], a[2], a[3], a[4]) == RowKey(b[0], b[1], b[2], b[3], b[4])
    ensures a == b
  {
    assert [a[0], a[1], a[2], a[3], a[4]] == a;
    assert [b[0], b[1], b[2], b[3], b[4]] == b;
    SplitJoin(a, '|');
    SplitJoin(b, '|');
  }

  /** A `|` inside a title or sport lets two different rows share a key: the
      title "a|b" with sport "c" and the title "a" with sport "b|c". */
  lemma RowKeyAmbiguous(startDate: string, endDate: string, a: string, b: string, c: string, location: string)
    ensures a + "|" + b != a
    ensures RowKey(startDate, endDate, a + "|" + b, c, location) == RowKey(startDate, endDate, a, b + "|" + c, location)
  {
    assert |a + "|" + b| > |a|;
    FieldsShareJoin(startDate, endDate, a, b, c, location);
  }

  lemma FieldsShareJoin(startDate: string, endDate: string, a: string, b: string, c: string, location: string)
    ensures Join([startDate, endDate, a + "|" + b, c, location], "|") == Join([startDate, endDate, a, b + "|" + c, location], "|")
  {
    var tail1 := [c, location];
    var tail2 := [b + "|" + c, location];
    assert Join(tail1, "|") == c + "|" + location by {
      assert tail1[1..] == [location];
    }
    assert Join(tail2, "|") == b + "|" + c + "|" + location by {
      assert tail2[1..] == [location];
    }
    JoinCons(a + "|" + b, tail1);
    JoinCons(a, tail2);
    JoinCons(endDate, [a + "|" + b] + tail1);
    JoinCons(endDate, [a] + tail2);
    JoinCons(startDate, [endDate] + ([a + "|" + b] + tail1));
    JoinCons(startDate, [endDate] + ([a] + tail2));
    assert [startDate, endDate, a + "|" + b, c, location] == [startDate] + ([endDate] + ([a + "|" + b] + tail1));
    assert [startDate, endDate, a, b + "|" + c, location] == [startDate] + ([endDate] + ([a] + tail2));
  }

  lemma JoinCons(first: string, rest: seq<string>)
    requires rest != []
    ensures Join([first] + rest, "|") == first + "|" + Join(rest, "|")
  {
    assert ([first] + rest)[1..] == rest;
  }

  /** Lexicographic order on equally long key lists: the first differing
      component decides, compared in code-point order. */
  predicate KeysLeq(a: seq<string>, b: seq<string>)
    decreases |a|
  {
    if a == [] || b == [] then true
    else if a[0] != b[0] then StrLeq(a[0], b[0])
    else KeysLeq(a[1..], b[1..])
  }

  lemma {:induction false} KeysLeqTotal(a: seq<string>, b: seq<string>)
    requires |a| == |b|
    ensures KeysLeq(a, b) || KeysLeq(b, a)
    decreases |a|
  {
    if a != [] {
      if a[0] != b[0] {
        StrLeqTotal(a[0], b[0]);
      } else {
        KeysLeqTotal(a[1..], b[1..]);
      }
    }
  }

  lemma {:induction false} KeysLeqTransitive(a: seq<string>, b: seq<string>, c: seq<string>)
    requires |a| == |b| == |c|
    requires KeysLeq(a, b) && KeysLeq(b, c)
    ensures KeysLeq(a, c)
    decreases |a|
  {
    if a != [] {
      if a[0] == b[0] && b[0] == c[0] {
        KeysLeqTransitive(a[1..], b[1..], c[1..]);
      } else if a[0] == b[0] {
        assert StrLeq(b[0], c[0]);
      } else if b[0] == c[0] {
        assert StrLeq(a[0], b[0]);
      } else {
        StrLeqTransitive(a[0], b[0], c[0]);
        if a[0] == c[0] {
          StrLeqAntisymmetric(a[0], b[0]);
        }
      }
    }
  }

  /** The comparator of the list and of the calendar: start date, end date,
      then summary and location without regard to case. */
  function SortKey(e: Event, format: TitleFormat): (k: seq<string>)
    ensures |k| == 4
  {
    [e.startDate, e.endDateExclusive, Lower(BuildSummary(e, format)), Lower(e.location)]
  }

  function EventOrder(format: TitleFormat): (Event, Event) -> bool {
    (a: Event, b: Event) => KeysLeq(SortKey(a, format), SortKey(b, format))
  }

  lemma EventOrderTotalPreorder(format: TitleFormat)
    ensures TotalPreorder(EventOrder(format))
  {
    var leq := EventOrder(format);
    forall a: Event, b: Event
      ensures leq(a, b) || leq(b, a)
    {
      KeysLeqTotal(SortKey(a, format), SortKey(b, format));
    }
    forall a: Event, b: Event, c: Event | leq(a, b) && leq(b, c)
      ensures leq(a, c)
    {
      KeysLeqTransitive(SortKey(a, format), SortKey(b, format), SortKey(c, format));
    }
  }

  /** `events.sort(comparator)`: the events in comparator order. */
  function SortEvents(events: seq<Event>, format: TitleFormat): (sorted: seq<Event>)
    ensures |sorted| == |events|
    ensures multiset(sorted) == multiset(events)
  {
    SortBy(events, EventOrder(format))
  }

  /** The sorted list is ordered and holds the same events as many times each. */
  lemma SortEventsSpec(events: seq<Event>, format: TitleFormat)
    ensures Sorted(SortEvents(events, format), EventOrder(format))
    ensures multiset(SortEvents(events, format)) == multiset(events)
  {
    EventOrderTotalPreorder(format);
    SortBySorted(events, EventOrder(format));
  }

  /** The sport of each event, in order. */
  function SportsOf(events: seq<Event>): (r: seq<string>)
    ensures |r| == |events|
    ensures forall i :: 0 <= i < |events| ==> r[i] == events[i].sport
  {
    seq(|events|, i requires 0 <= i < |events| => events[i].sport)
  }

  /** `[...new Set(names.filter(Boolean))]`: each non-empty name once, in order of first appearance. */
  function DistinctNames(names: seq<string>): (r: seq<string>)
    ensures forall x :: multiset(r)[x] == if x in names && x != "" then 1 else 0
  {
    if names == [] then []
    else
      var prev := DistinctNames(names[..|names| - 1]);
      var last := names[|names| - 1];
      assert names == names[..|names| - 1] + [last];
      if last == "" || last in prev then prev else prev + [last]
  }

  /** The sport list (`state.sports`, `available_sports`): the distinct non-empty
      names, ordered without regard to case. */
  function AvailableSports(names: seq<string>): (sports: seq<string>)
    ensures forall x :: multiset(sports)[x] == if x in names && x != "" then 1 else 0
  {
    SortBy(DistinctNames(names), FoldLeq)
  }

  /** Each non-empty sport appears exactly once, the empty sport never, and the list is in case-insensitive order. */
  lemma AvailableSportsSpec(names: seq<string>)
    ensures forall x :: multiset(AvailableSports(names))[x] == if x in names && x != "" then 1 else 0
    ensures forall x :: x in AvailableSports(names) <==> x in names && x != ""
    ensures Sorted(AvailableSports(names), FoldLeq)
  {
    var r := AvailableSports(names);
    forall x
      ensures x in r <==> x in names && x != ""
    {
      assert x in r <==> x in multiset(r);
    }
    forall a, b
      ensures FoldLeq(a, b) || FoldLeq(b, a)
    {
      FoldLeqTotalPreorder(a, b, b);
    }
    forall a, b, c | FoldLeq(a, b) && FoldLeq(b, c)
      ensures FoldLeq(a, c)
    {
      FoldLeqTotalPreorder(a, b, c);
    }
    SortBySorted(DistinctNames(names), FoldLeq);
  }
}
