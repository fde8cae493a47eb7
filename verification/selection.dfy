/** The browser page's state (`state` in the page script) and the updates its
    handlers make: the loaded events, the list of sports, the selected sports
    and event ids, the search query, the visible events, and the export of the
    selected events. */
module Selection {
  import opened Wrappers
  import opened Text
  import opened Events
  import opened TsvLoader
  import opened Ics

  /** The elements of `s` for which `keep` holds, in order (`Array.prototype.filter`). */
  function Filter<T(!new)>(s: seq<T>, keep: T -> bool): (r: seq<T>)
    ensures |r| <= |s|
    ensures forall x :: x in r <==> x in s && keep(x)
  {
    if s == [] then []
    else
      assert s == [s[0]] + s[1..];
      if keep(s[0]) then [s[0]] + Filter(s[1..], keep)
      else Filter(s[1..], keep)
  }

  /** A filter keeps each element that passes as many times as it occurs, and no other. */
  lemma {:induction false} FilterCounts<T(!new)>(s: seq<T>, keep: T -> bool)
    ensures forall x :: multiset(Filter(s, keep))[x] == if keep(x) then multiset(s)[x] else 0
  {
    if s != [] {
      FilterCounts(s[1..], keep);
      assert s == [s[0]] + s[1..];
    }
  }

  /** `a` is `b` with some elements left out, the rest in their order. */
  predicate Subsequence<T(==)>(a: seq<T>, b: seq<T>)
    decreases |b|
  {
    if a == [] then true
    else if b == [] then false
    else if a[0] == b[0] then Subsequence(a[1..], b[1..])
    else Subsequence(a, b[1..])
  }

  /** A filter keeps the order of what it keeps. */
  lemma {:induction false} FilterSubsequence<T(!new)>(s: seq<T>, keep: T -> bool)
    ensures Subsequence(Filter(s, keep), s)
  {
    if s != [] {
      FilterSubsequence(s[1..], keep);
      var r := Filter(s[1..], keep);
      if !keep(s[0]) && r != [] {
        assert r[0] in r;
      }
    }
  }

  /** A filter that keeps everything changes nothing. */
  lemma {:induction false} FilterAll<T(!new)>(s: seq<T>, keep: T -> bool)
    requires forall x :: x in s ==> keep(x)
    ensures Filter(s, keep) == s
  {
    if s != [] {
      FilterAll(s[1..], keep);
      assert s == [s[0]] + s[1..];
    }
  }

  /** `new Set(list)`: the elements of the list. */
  function SetOf(list: seq<string>): (r: set<string>)
    ensures forall x :: x in r <==> x in list
  {
    set x | x in list
  }

  /** The ids of the events. */
  function Ids(events: seq<Event>): (ids: set<string>)
    ensures forall e :: e in events ==> e.id in ids
    ensures forall id :: id in ids ==> exists e :: e in events && e.id == id
  {
    set e | e in events :: e.id
  }

  lemma IdsSnoc(events: seq<Event>, i: nat)
    requires i < |events|
    ensures Ids(events[..i + 1]) == Ids(events[..i]) + {events[i].id}
  {
    PrefixSnoc(events, i);
  }

  /** `syncEventChecksToSportsSelection`: the ids of the events whose sport is selected. */
  function IdsOfSports(events: seq<Event>, sports: set<string>): (ids: set<string>)
    ensures forall e :: e in events && e.sport in sports ==> e.id in ids
    ensures forall id :: id in ids ==> exists e :: e in events && e.sport in sports && e.id == id
  {
    set e | e in events && e.sport in sports :: e.id
  }

  /** The query matches the event when it is empty or occurs in the lower-cased
      "title sport location" text. */
  predicate Matches(e: Event, query: string)
    ensures query == "" ==> Matches(e, query)
    ensures Matches(e, query) ==> |query| <= |e.title| + |e.sport| + |e.location| + 2
  {
    query == "" || Contains(Lower(e.title + " " + e.sport + " " + e.location), query)
  }

  /** What `applyFilters` leaves in `visibleEvents`. */
  function FilterVisible(events: seq<Event>, query: string): (visible: seq<Event>)
    ensures forall e :: e in visible <==> e in events && Matches(e, query)
  {
    Filter(events, e => Matches(e, query))
  }

  /** Each matching event is visible as many times as it is in the list, any other never. */
  lemma FilterVisibleCounts(events: seq<Event>, query: string)
    ensures forall e :: multiset(FilterVisible(events, query))[e] == if Matches(e, query) then multiset(events)[e] else 0
  {
    FilterCounts(events, e => Matches(e, query));
  }

  /** The visible events keep the list's order, and with no query they are the whole list. */
  lemma FilterVisibleSpec(events: seq<Event>, query: string)
    ensures Subsequence(FilterVisible(events, query), events)
    ensures query == "" ==> FilterVisible(events, query) == events
  {
    FilterSubsequence(events, e => Matches(e, query));
    if query == "" {
      FilterAll(events, e => Matches(e, query));
    }
  }

  /** What `getSelectedSummary` returns. */
  datatype SelectedSummary = SelectedSummary(events: seq<Event>, eventsCount: nat, sportsCount: nat)

  /** The distinct non-empty sports of the events. */
  function SportSet(events: seq<Event>): (sports: set<string>)
    ensures forall s :: s in sports <==> s != "" && exists e :: e in events && e.sport == s
  {
    set e | e in events && e.sport != "" :: e.sport
  }

  /** `getSelectedSummary`: the events whose id is selected, in list order, how
      many there are, and how many distinct non-empty sports they have. */
  function SummaryOf(events: seq<Event>, selectedIds: set<string>): (summary: SelectedSummary)
    ensures forall e :: e in summary.events <==> e in events && e.id in selectedIds
    ensures forall e :: multiset(summary.events)[e] == if e.id in selectedIds then multiset(events)[e] else 0
    ensures summary.eventsCount == |summary.events|
    ensures summary.sportsCount == |SportSet(summary.events)|
  {
    FilterCounts(events, (e: Event) => e.id in selectedIds);
    var chosen := Filter(events, (e: Event) => e.id in selectedIds);
    SelectedSummary(chosen, |chosen|, |SportSet(chosen)|)
  }

  lemma SummaryOrder(events: seq<Event>, selectedIds: set<string>)
    ensures Subsequence(SummaryOf(events, selectedIds).events, events)
  {
    FilterSubsequence(events, (e: Event) => e.id in selectedIds);
  }

  const NothingSelected: string := "Select at least one event before exporting."
  const DefaultCalendarName: string := "Sportkalender Selection"

  /** The calendar name field, trimmed, or the default name when that leaves nothing. */
  function CalendarName(input: string): (name: string)
    ensures name != ""
    ensures JsTrim(input) != "" ==> name == JsTrim(input)
  {
    if JsTrim(input) == "" then DefaultCalendarName else JsTrim(input)
  }

  /** Select-all selects the sports of the sport list, which leaves out the
      empty sport, so the events without a sport end up unselected. */
  lemma SelectAllIds(events: seq<Event>)
    ensures IdsOfSports(events, SetOf(AvailableSports(SportsOf(events)))) ==
      IdsOfSports(events, SportSet(events))
  {
    ListedSports(events);
  }

  /** The sport list holds exactly the non-empty sports of the events. */
  lemma ListedSports(events: seq<Event>)
    ensures SetOf(AvailableSports(SportsOf(events))) == SportSet(events)
  {
    var names := SportsOf(events);
    AvailableSportsSpec(names);
    forall s | s in SportSet(events)
      ensures s in names
    {
      var e :| e in events && e.sport == s;
      var i :| 0 <= i < |events| && events[i] == e;
      assert names[i] == s;
    }
    forall s | s in names && s != ""
      ensures s in SportSet(events)
    {
      var i :| 0 <= i < |names| && names[i] == s;
      assert events[i] in events;
    }
  }

  /** The loop of "Clear visible": each event's id removed from `ids`. */
  method RemoveIds(ids: set<string>, events: seq<Event>) returns (left: set<string>)
    ensures left == ids - Ids(events)
  {
    left := ids;
    for i := 0 to |events|
      invariant left == ids - Ids(events[..i])
    {
      IdsSnoc(events, i);
      left := left - {events[i].id};
    }
    PrefixAll(events);
  }

  /** The loop of `boot` and "Select visible": each event's id added to `ids`. */
  method AddIds(ids: set<string>, events: seq<Event>) returns (added: set<string>)
    ensures added == ids + Ids(events)
  {
    added := ids;
    for i := 0 to |events|
      invariant added == ids + Ids(events[..i])
    {
      IdsSnoc(events, i);
      added := added + {events[i].id};
    }
    PrefixAll(events);
  }

  /** No sport selected, no event selected. */
  lemma NoSportsNoIds(events: seq<Event>)
    ensures IdsOfSports(events, {}) == {}
  {
  }

  /** `boot`: the events loaded from the data file's text, then the initial state. */
  method BootFromText(text: string) returns (state: AppState)
    ensures fresh(state)
    ensures state.events == LoadedEvents(text)
    ensures state.selectedSports == SetOf(state.sports)
    ensures state.selectedEventIds == Ids(state.events)
    ensures state.visibleEvents == state.events
    ensures state.Valid()
  {
    var loaded := LoadEventsFromTsv(text);
    state := new AppState.Boot(loaded);
  }

  /** The page's state. `titleFormat` holds the select's raw value. */
  class AppState {
    var events: seq<Event>
    var visibleEvents: seq<Event>
    var sports: seq<string>
    var selectedSports: set<string>
    var selectedEventIds: set<string>
    var query: string
    var titleFormat: string

    /** What every handler leaves true: the sport list is the events' sports and
        the visible events are the query's filter of the events. */
    ghost predicate Valid()
      reads this
    {
      && sports == AvailableSports(SportsOf(events))
      && visibleEvents == FilterVisible(events, query)
    }

    /** The state `boot` sets up once the events are loaded: their sports
        offered, every sport and every event selected, everything shown. */
    constructor Boot(loaded: seq<Event>)
      ensures events == loaded
      ensures sports == AvailableSports(SportsOf(events))
      ensures selectedSports == SetOf(sports)
      ensures selectedEventIds == Ids(events)
      ensures query == "" && titleFormat == "sport_event"
      ensures visibleEvents == events
      ensures Valid()
    {
      var offered := AvailableSports(SportsOf(loaded));
      var ids := AddIds({}, loaded);
      FilterVisibleSpec(loaded, "");
      events := loaded;
      sports := offered;
      selectedSports := SetOf(offered);
      selectedEventIds := ids;
      query := "";
      titleFormat := "sport_event";
      visibleEvents := FilterVisible(loaded, "");
    }

    /** `applyFilters`: the visible events are the events the query matches. */
    method ApplyFilters()
      modifies this
      ensures visibleEvents == FilterVisible(events, query)
      ensures events == old(events) && sports == old(sports) && query == old(query)
      ensures selectedSports == old(selectedSports) && selectedEventIds == old(selectedEventIds)
      ensures titleFormat == old(titleFormat)
    {
      visibleEvents := FilterVisible(events, query);
    }

    /** `syncEventChecksToSportsSelection`: exactly the events of the selected sports are selected. */
    method SyncEventChecksToSportsSelection()
      modifies this
      ensures selectedEventIds == IdsOfSports(events, selectedSports)
      ensures events == old(events) && sports == old(sports) && query == old(query)
      ensures visibleEvents == old(visibleEvents) && selectedSports == old(selectedSports)
      ensures titleFormat == old(titleFormat)
    {
      selectedEventIds := IdsOfSports(events, selectedSports);
    }

    /** The search box: the query is the trimmed, lower-cased input. */
    method SetQuery(value: string)
      requires Valid()
      modifies this
      ensures query == Lower(JsTrim(value))
      ensures visibleEvents == FilterVisible(events, query)
      ensures events == old(events) && sports == old(sports)
      ensures selectedSports == old(selectedSports) && selectedEventIds == old(selectedEventIds)
      ensures titleFormat == old(titleFormat)
      ensures Valid()
    {
      query := Lower(JsTrim(value));
      ApplyFilters();
    }

    /** The title-format select: only the format changes. */
    method SetTitleFormat(value: string)
      requires Valid()
      modifies this
      ensures titleFormat == value
      ensures events == old(events) && sports == old(sports) && query == old(query)
      ensures visibleEvents == old(visibleEvents)
      ensures selectedSports == old(selectedSports) && selectedEventIds == old(selectedEventIds)
      ensures Valid()
    {
      titleFormat := value;
    }

    /** "All sports": every offered sport is selected, and with it every event of those sports. */
    method SelectAllSports()
      requires Valid()
      modifies this
      ensures selectedSports == SetOf(sports)
      ensures selectedEventIds == IdsOfSports(events, selectedSports)
      ensures events == old(events) && sports == old(sports) && query == old(query)
      ensures titleFormat == old(titleFormat)
      ensures Valid()
    {
      selectedSports := SetOf(sports);
      SyncEventChecksToSportsSelection();
      ApplyFilters();
    }

    /** "No sports": nothing is selected. */
    method SelectNoSports()
      requires Valid()
      modifies this
      ensures selectedSports == {}
      ensures selectedEventIds == {}
      ensures events == old(events) && sports == old(sports) && query == old(query)
      ensures titleFormat == old(titleFormat)
      ensures Valid()
    {
      selectedSports := {};
      SyncEventChecksToSportsSelection();
      NoSportsNoIds(events);
      ApplyFilters();
    }

    /** A sport's checkbox: an empty sport name changes nothing; otherwise the
        sport is added or removed and the event selection follows the sports. */
    method ToggleSport(sport: string, checked: bool)
      requires Valid()
      modifies this
      ensures sport == "" ==> selectedSports == old(selectedSports) && selectedEventIds == old(selectedEventIds)
      ensures sport != "" ==> selectedSports == if checked then old(selectedSports) + {sport} else old(selectedSports) - {sport}
      ensures sport != "" ==> selectedEventIds == IdsOfSports(events, selectedSports)
      ensures events == old(events) && sports == old(sports) && query == old(query)
      ensures titleFormat == old(titleFormat)
      ensures Valid()
    {
      if sport == "" {
        return;
      }
      if checked {
        selectedSports := selectedSports + {sport};
      } else {
        selectedSports := selectedSports - {sport};
      }
      SyncEventChecksToSportsSelection();
      ApplyFilters();
    }

    /** An event's checkbox: an empty id changes nothing; otherwise that one id
        is added or removed and the sports stay as they are. */
    method ToggleEvent(eventId: string, checked: bool)
      requires Valid()
      modifies this
      ensures eventId == "" ==> selectedEventIds == old(selectedEventIds)
      ensures eventId != "" ==>
                selectedEventIds == if checked then old(selectedEventIds) + {eventId} else old(selectedEventIds) - {eventId}
      ensures selectedSports == old(selectedSports)
      ensures events == old(events) && sports == old(sports) && query == old(query)
      ensures visibleEvents == old(visibleEvents) && titleFormat == old(titleFormat)
      ensures Valid()
    {
      if eventId == "" {
        return;
      }
      if checked {
        selectedEventIds := selectedEventIds + {eventId};
      } else {
        selectedEventIds := selectedEventIds - {eventId};
      }
    }

    /** "Select visible": the visible events' ids are added, one event at a time. */
    method SelectVisible()
      requires Valid()
      modifies this
      ensures selectedEventIds == old(selectedEventIds) + Ids(visibleEvents)
      ensures selectedSports == old(selectedSports)
      ensures events == old(events) && sports == old(sports) && query == old(query)
      ensures visibleEvents == old(visibleEvents) && titleFormat == old(titleFormat)
      ensures Valid()
    {
      selectedEventIds := AddIds(selectedEventIds, visibleEvents);
    }

    /** "Clear visible": the visible events' ids are removed, one event at a time. */
    method ClearVisible()
      requires Valid()
      modifies this
      ensures selectedEventIds == old(selectedEventIds) - Ids(visibleEvents)
      ensures selectedSports == old(selectedSports)
      ensures events == old(events) && sports == old(sports) && query == old(query)
      ensures visibleEvents == old(visibleEvents) && titleFormat == old(titleFormat)
      ensures Valid()
    {
      selectedEventIds := RemoveIds(selectedEventIds, visibleEvents);
    }

    /** `getSelectedSummary` on the current state. */
    function CurrentSummary(): (summary: SelectedSummary)
      reads this
      ensures forall e :: e in summary.events <==> e in events && e.id in selectedEventIds
      ensures forall e :: multiset(summary.events)[e] == if e.id in selectedEventIds then multiset(events)[e] else 0
      ensures summary.eventsCount == |summary.events|
      ensures summary.sportsCount == |SportSet(summary.events)|
    {
      SummaryOf(events, selectedEventIds)
    }

    /** The export button: with no selected event, the message asking for one;
        otherwise the calendar of the selected events, under the trimmed name
        or the default name. */
    method Export(calendarNameInput: string) returns (outcome: Result<Units, string>)
      ensures outcome.Failure? <==> CurrentSummary().events == []
      ensures outcome.Failure? ==> outcome.error == NothingSelected
      ensures outcome.Success? ==>
                outcome.value == IcsText(CurrentSummary().events, CalendarName(calendarNameInput), TitleFormatOf(titleFormat))
    {
      var summary := SummaryOf(events, selectedEventIds);
      if |summary.events| == 0 {
        return Failure(NothingSelected);
      }
      var name := CalendarName(calendarNameInput);
      var ics := CreateIcs(summary.events, name, TitleFormatOf(titleFormat));
      outcome := Success(ics);
    }
  }
}
