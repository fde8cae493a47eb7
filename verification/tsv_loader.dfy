/** `loadEventsFromTsv` without the fetch: the text of the data file becomes the
    sorted list of distinct events. Each line is trimmed, skipped when blank or
    a `###` comment, split on tabs into trimmed columns, skipped with fewer than
    three columns, as the `Datum` header, or without a date; the remaining
    columns from the fourth on form the location; a row whose key an earlier
    row already had is dropped. */
module TsvLoader {
  import opened Wrappers
  import opened Text
  import opened Sorting
  import opened DateRange
  import opened Fnv
  import opened Events

  /** `s` without one trailing carriage return. */
  function DropCr(s: string): (r: string)
    ensures r <= s
    ensures forall c :: c in r ==> c in s
    ensures |s| > 0 && s[|s| - 1] == '\r' ==> |r| == |s| - 1
  {
    if |s| > 0 && s[|s| - 1] == '\r' then s[..|s| - 1] else s
  }

  /** `text.split(/\r?\n/)`: the pieces between line feeds, a carriage return
      just before a line feed going with it. */
  function SplitLines(text: string): (lines: seq<string>)
    ensures |lines| == |Split(text, '\n')| >= 1
    ensures forall i :: 0 <= i < |lines| ==> '\n' !in lines[i]
  {
    var parts := Split(text, '\n');
    assert forall i :: 0 <= i < |parts| ==> parts[i] in parts;
    seq(|parts|, i requires 0 <= i < |parts| => if i < |parts| - 1 then DropCr(parts[i]) else parts[i])
  }

  /** No JavaScript whitespace at either end. */
  predicate Trimmed(s: string) {
    s == [] || (!IsJsSpace(s[0]) && !IsJsSpace(s[|s| - 1]))
  }

  /** `line.split("\t").map((value) => value.trim())`. */
  function Columns(line: string): (cols: seq<string>)
    ensures |cols| == |Split(line, '\t')| >= 1
    ensures forall i :: 0 <= i < |cols| ==> Trimmed(cols[i]) && '\t' !in cols[i]
  {
    var parts := Split(line, '\t');
    assert forall i :: 0 <= i < |parts| ==> parts[i] in parts;
    seq(|parts|, i requires 0 <= i < |parts| => JsTrim(parts[i]))
  }

  /** The first and last characters of a join are those of the first and last pieces. */
  lemma {:induction false} JoinEnds(parts: seq<string>, sep: string)
    requires |parts| >= 1
    requires forall i :: 0 <= i < |parts| ==> parts[i] != []
    ensures var j := Join(parts, sep);
      |j| >= 1 && j[0] == parts[0][0] && j[|j| - 1] == parts[|parts| - 1][|parts[|parts| - 1]| - 1]
  {
    if |parts| > 1 {
      JoinEnds(parts[1..], sep);
    }
  }

  /** `columns.slice(3).filter(Boolean).join(" ")`. */
  function Location(cols: seq<string>): (loc: string)
    requires |cols| >= 3
    requires forall i :: 0 <= i < |cols| ==> Trimmed(cols[i])
    ensures Trimmed(loc)
    ensures loc == "" <==> forall i :: 3 <= i < |cols| ==> cols[i] == ""
  {
    var pieces := NonEmpty(cols[3..]);
    assert forall p :: p in cols[3..] ==> Trimmed(p) by {
      forall p | p in cols[3..]
        ensures Trimmed(p)
      {
        var k :| 0 <= k < |cols[3..]| && cols[3..][k] == p;
        assert cols[3 + k] == p;
      }
    }
    assert forall i :: 0 <= i < |pieces| ==> pieces[i] in pieces;
    if pieces != [] then
      var first, last := pieces[0], pieces[|pieces| - 1];
      assert Trimmed(first) && Trimmed(last) && first != [] && last != [];
      JoinEnds(pieces, " ");
      var loc := Join(pieces, " ");
      assert loc != "";
      assert cols[3..][0] == cols[3];
      loc
    else
      assert forall i :: 3 <= i < |cols| ==> cols[i] in cols[3..];
      Join(pieces, " ")
  }

  /** A data line: the day range and the three text fields. */
  datatype Row = Row(range: IsoRange, title: string, sport: string, location: string)

  /** Why a line gives no row. */
  datatype Skip = Blank | Comment | TooFewColumns | Header | NoDate

  /** One turn of the loop: the row a line gives, or why it is skipped. */
  function ParseLine(line: string): (r: Result<Row, Skip>)
    ensures r.Success? ==> Trimmed(r.value.title) && Trimmed(r.value.sport) && Trimmed(r.value.location)
    ensures r.Success? ==> '\t' !in r.value.title && '\t' !in r.value.sport
  {
    var trimmed := JsTrim(line);
    if trimmed == "" then Failure(Blank)
    else if StartsWith(trimmed, "###") then Failure(Comment)
    else
      var cols := Columns(line);
      if |cols| < 3 then Failure(TooFewColumns)
      else if Lower(cols[0]) == "datum" then Failure(Header)
      else
        match ParseDateRange(cols[0])
        case None => Failure(NoDate)
        case Some(range) => Success(Row(range, cols[1], cols[2], Location(cols)))
  }

  /** The drop rules: a line gives a row exactly when it is not blank, not a
      comment, has three columns, is not the header and has a date; the row's
      fields are the date range of the first column, the second and third
      columns, and the non-empty later columns joined by single spaces. */
  lemma ParseLineKeeps(line: string)
    ensures var cols := Columns(line);
      ParseLine(line).Success? <==>
        && JsTrim(line) != ""
        && !StartsWith(JsTrim(line), "###")
        && |cols| >= 3
        && Lower(cols[0]) != "datum"
        && ParseDateRange(cols[0]).Some?
    ensures var cols := Columns(line);
      ParseLine(line).Success? ==>
        ParseLine(line).value == Row(ParseDateRange(cols[0]).value, cols[1], cols[2], Join(NonEmpty(cols[3..]), " "))
  {
  }

  function KeyOf(row: Row): string {
    RowKey(row.range.startDate, row.range.endDateExclusive, row.title, row.sport, row.location)
  }

  function Keys(rows: seq<Row>): set<string> {
    set r | r in rows :: KeyOf(r)
  }

  /** The rows of the lines that give one, in line order. */
  function Parsed(lines: seq<string>): (rows: seq<Row>)
    ensures |rows| <= |lines|
  {
    if lines == [] then []
    else
      var prev := Parsed(lines[..|lines| - 1]);
      match ParseLine(lines[|lines| - 1])
      case Failure(_) => prev
      case Success(row) => prev + [row]
  }

  /** No row before index `i` has the key of row `i`. */
  predicate FirstOfKey(rows: seq<Row>, i: nat)
    requires i < |rows|
  {
    forall j :: 0 <= j < i ==> KeyOf(rows[j]) != KeyOf(rows[i])
  }

  /** The rows that are the first of their key, in order: the first occurrence wins. */
  function Dedup(rows: seq<Row>): (d: seq<Row>)
    ensures |d| <= |rows|
  {
    if rows == [] then []
    else
      var prev := Dedup(rows[..|rows| - 1]);
      if FirstOfKey(rows, |rows| - 1) then prev + [rows[|rows| - 1]] else prev
  }

  lemma KeysAppend(rows: seq<Row>, row: Row)
    ensures Keys(rows + [row]) == Keys(rows) + {KeyOf(row)}
  {
    var all := rows + [row];
    assert forall r :: r in all <==> r in rows || r == row;
  }

  lemma KeyInKeys(rows: seq<Row>, row: Row)
    ensures KeyOf(row) in Keys(rows) <==> !FirstOfKey(rows + [row], |rows|)
  {
    var all := rows + [row];
    if KeyOf(row) in Keys(rows) {
      var r :| r in rows && KeyOf(r) == KeyOf(row);
      var j :| 0 <= j < |rows| && rows[j] == r;
      assert all[j] == r;
    }
    if !FirstOfKey(all, |rows|) {
      var j :| 0 <= j < |rows| && KeyOf(all[j]) == KeyOf(all[|rows|]);
      assert all[j] == rows[j];
    }
  }

  /** Every key of the input survives: no key is lost by dropping duplicates. */
  lemma {:induction false} DedupKeys(rows: seq<Row>)
    ensures Keys(Dedup(rows)) == Keys(rows)
  {
    if rows != [] {
      var prefix := rows[..|rows| - 1];
      var last := rows[|rows| - 1];
      assert rows == prefix + [last];
      DedupKeys(prefix);
      KeyInKeys(prefix, last);
      KeysAppend(prefix, last);
      KeysAppend(Dedup(prefix), last);
    }
  }

  /** No two kept rows share a key. */
  lemma {:induction false} DedupDistinct(rows: seq<Row>)
    ensures var d := Dedup(rows);
      forall i, j :: 0 <= i < j < |d| ==> KeyOf(d[i]) != KeyOf(d[j])
  {
    if rows != [] {
      var prefix := rows[..|rows| - 1];
      var last := rows[|rows| - 1];
      var p := Dedup(prefix);
      var d := Dedup(rows);
      DedupDistinct(prefix);
      LastSplit(rows);
      DedupSnoc(prefix, last);
      if KeyOf(last) !in Keys(prefix) {
        assert d == p + [last];
        DedupKeys(prefix);
        forall i, j | 0 <= i < j < |d|
          ensures KeyOf(d[i]) != KeyOf(d[j])
        {
          assert d[i] == p[i];
          if j == |d| - 1 {
            assert p[i] in p;
          } else {
            assert d[j] == p[j];
          }
        }
      } else {
        assert d == p;
      }
    }
  }

  /** Every kept row is a row of the input that no earlier input row shares a key with. */
  lemma {:induction false} DedupFirstWins(rows: seq<Row>)
    ensures forall r :: r in Dedup(rows) ==>
      exists i :: 0 <= i < |rows| && rows[i] == r && FirstOfKey(rows, i)
  {
    if rows != [] {
      var prefix := rows[..|rows| - 1];
      var n := |rows| - 1;
      var p, d := Dedup(prefix), Dedup(rows);
      DedupFirstWins(prefix);
      assert d == if FirstOfKey(rows, n) then p + [rows[n]] else p;
      forall r | r in d
        ensures exists i :: 0 <= i < |rows| && rows[i] == r && FirstOfKey(rows, i)
      {
        if r in p {
          var i :| 0 <= i < |prefix| && prefix[i] == r && FirstOfKey(prefix, i);
          FirstOfKeyInPrefix(rows, i);
        } else {
          assert rows[n] == r && FirstOfKey(rows, n);
        }
      }
    }
  }

  /** Being the first of its key depends only on the rows up to it. */
  lemma FirstOfKeyInPrefix(rows: seq<Row>, i: nat)
    requires i < |rows| - 1 && FirstOfKey(rows[..|rows| - 1], i)
    ensures FirstOfKey(rows, i) && rows[i] == rows[..|rows| - 1][i]
  {
    var prefix := rows[..|rows| - 1];
    assert forall j :: 0 <= j <= i ==> rows[j] == prefix[j];
  }

  /** The event a kept row becomes; its id is the fingerprint of its key. */
  function ToEvent(row: Row): (e: Event)
    ensures EventKey(e) == KeyOf(row)
  {
    Event(Fingerprint(KeyOf(row)), row.range.startDate, row.range.endDateExclusive, row.title, row.sport, row.location)
  }

  function ToEvents(rows: seq<Row>): (events: seq<Event>)
    ensures |events| == |rows|
    ensures forall i :: 0 <= i < |rows| ==> events[i] == ToEvent(rows[i])
  {
    seq(|rows|, i requires 0 <= i < |rows| => ToEvent(rows[i]))
  }

  /** What `loadEventsFromTsv` returns for the text of the data file. */
  function LoadedEvents(text: string): (events: seq<Event>)
    ensures |events| <= |SplitLines(text)|
    ensures multiset(events) == multiset(ToEvents(Dedup(Parsed(SplitLines(text)))))
  {
    SortEvents(ToEvents(Dedup(Parsed(SplitLines(text)))), SportAndEvent)
  }

  /** One more line adds its row, if it gives one, to the parsed rows. */
  lemma ParsedSnoc(prefix: seq<string>, line: string)
    ensures ParseLine(line).Failure? ==> Parsed(prefix + [line]) == Parsed(prefix)
    ensures ParseLine(line).Success? ==> Parsed(prefix + [line]) == Parsed(prefix) + [ParseLine(line).value]
  {
    var all := prefix + [line];
    assert all[..|all| - 1] == prefix;
  }

  /** One more row adds its key to the keys seen, and is kept exactly when its key is new. */
  lemma DedupSnoc(parsed: seq<Row>, row: Row)
    ensures Keys(parsed + [row]) == Keys(parsed) + {KeyOf(row)}
    ensures KeyOf(row) in Keys(parsed) ==> Dedup(parsed + [row]) == Dedup(parsed)
    ensures KeyOf(row) !in Keys(parsed) ==> Dedup(parsed + [row]) == Dedup(parsed) + [row]
  {
    KeysAppend(parsed, row);
    KeyInKeys(parsed, row);
    assert (parsed + [row])[..|parsed|] == parsed;
  }

  lemma ToEventsAppend(rows: seq<Row>, row: Row, event: Event)
    requires event == Event(Fingerprint(KeyOf(row)), row.range.startDate, row.range.endDateExclusive, row.title, row.sport, row.location)
    ensures ToEvents(rows + [row]) == ToEvents(rows) + [event]
  {
    var all := rows + [row];
    var a, b := ToEvents(all), ToEvents(rows) + [event];
    forall i | 0 <= i < |a|
      ensures a[i] == b[i]
    {
      if i < |rows| {
        assert all[i] == rows[i];
      }
    }
  }

  /** What a line that gives a row does to the kept events and the keys seen. */
  lemma KeepRow(prefix: seq<string>, line: string, row: Row)
    requires ParseLine(line) == Success(row)
    ensures var before, after := Parsed(prefix), Parsed(prefix + [line]);
      KeyOf(row) in Keys(before) ==>
        Keys(after) == Keys(before) && ToEvents(Dedup(after)) == ToEvents(Dedup(before))
    ensures var before, after := Parsed(prefix), Parsed(prefix + [line]);
      KeyOf(row) !in Keys(before) ==>
        Keys(after) == Keys(before) + {KeyOf(row)} && ToEvents(Dedup(after)) == ToEvents(Dedup(before)) + [ToEvent(row)]
  {
    var before := Parsed(prefix);
    ParsedSnoc(prefix, line);
    DedupSnoc(before, row);
    if KeyOf(row) in Keys(before) {
      AddPresent(Keys(before), KeyOf(row));
    } else {
      ToEventsAppend(Dedup(before), row, ToEvent(row));
    }
  }

  lemma AddPresent<T>(s: set<T>, x: T)
    requires x in s
    ensures s + {x} == s
  {
  }

  /** The loop: one pass over the lines with the set of keys seen so far, then the sort. */
  method LoadEventsFromTsv(text: string) returns (events: seq<Event>)
    ensures events == LoadedEvents(text)
  {
    var lines := SplitLines(text);
    var kept := KeepFirstRows(lines);
    events := SortEvents(kept, SportAndEvent);
  }

  /** The loop of `loadEventsFromTsv`: each line parsed, and the event of a row
      pushed unless a row with the same key came before. */
  method KeepFirstRows(lines: seq<string>) returns (kept: seq<Event>)
    ensures kept == ToEvents(Dedup(Parsed(lines)))
  {
    var seen: set<string> := {};
    kept := [];
    for i := 0 to |lines|
      invariant kept == ToEvents(Dedup(Parsed(lines[..i])))
      invariant seen == Keys(Parsed(lines[..i]))
    {
      PrefixSnoc(lines, i);
      ParsedSnoc(lines[..i], lines[i]);
      var result := ParseLine(lines[i]);
      if result.Success? {
        var row := result.value;
        KeepRow(lines[..i], lines[i], row);
        var key := KeyOf(row);
        if key !in seen {
          var id := HashHex(key);
          var event := Event(id, row.range.startDate, row.range.endDateExclusive, row.title, row.sport, row.location);
          seen := seen + {key};
          kept := kept + [event];
        }
      }
    }
    PrefixAll(lines);
  }

  /** In a list whose events have distinct keys, each event occurs at most once. */
  lemma {:induction false} DistinctKeysOnce(t: seq<Event>, x: Event)
    requires forall i, j :: 0 <= i < j < |t| ==> EventKey(t[i]) != EventKey(t[j])
    ensures multiset(t)[x] <= 1
  {
    if t != [] {
      var prefix := t[..|t| - 1];
      assert t == prefix + [t[|t| - 1]];
      DistinctKeysOnce(prefix, x);
    }
  }

  lemma TwiceInList(s: seq<Event>, i: nat, j: nat)
    requires i < j < |s| && s[i] == s[j]
    ensures multiset(s)[s[i]] >= 2
  {
    assert s == s[..i] + [s[i]] + s[i + 1..j] + [s[j]] + s[j + 1..];
  }

  /** Reordering a list whose events have distinct keys keeps the keys distinct. */
  lemma DistinctKeysKept(s: seq<Event>, t: seq<Event>)
    requires multiset(s) == multiset(t)
    requires forall i, j :: 0 <= i < j < |t| ==> EventKey(t[i]) != EventKey(t[j])
    ensures forall i, j :: 0 <= i < j < |s| ==> EventKey(s[i]) != EventKey(s[j])
  {
    forall i, j | 0 <= i < j < |s|
      ensures EventKey(s[i]) != EventKey(s[j])
    {
      if EventKey(s[i]) == EventKey(s[j]) {
        assert s[i] in multiset(t) && s[j] in multiset(t);
        var a :| 0 <= a < |t| && t[a] == s[i];
        var b :| 0 <= b < |t| && t[b] == s[j];
        if a < b {
          assert EventKey(t[a]) != EventKey(t[b]);
        } else if b < a {
          assert EventKey(t[b]) != EventKey(t[a]);
        }
        TwiceInList(s, i, j);
        DistinctKeysOnce(t, s[i]);
        assert false;
      }
    }
  }

  /** The loaded list is in comparator order and holds exactly the events of
      the rows that are the first of their key, each as often as there. */
  lemma LoadedEventsOrdered(text: string)
    ensures Sorted(LoadedEvents(text), EventOrder(SportAndEvent))
    ensures multiset(LoadedEvents(text)) == multiset(ToEvents(Dedup(Parsed(SplitLines(text)))))
  {
    SortEventsSpec(ToEvents(Dedup(Parsed(SplitLines(text)))), SportAndEvent);
  }

  /** No two loaded events share a key. */
  lemma LoadedEventsDistinct(text: string)
    ensures var events := LoadedEvents(text);
      forall i, j :: 0 <= i < j < |events| ==> EventKey(events[i]) != EventKey(events[j])
  {
    var parsed := Parsed(SplitLines(text));
    var kept := ToEvents(Dedup(parsed));
    DedupDistinct(parsed);
    LoadedEventsOrdered(text);
    DistinctKeysKept(LoadedEvents(text), kept);
  }

  /** The loaded events are the events of the kept rows, in another order. */
  lemma LoadedEventsMembers(text: string)
    ensures forall e :: e in LoadedEvents(text) <==> e in ToEvents(Dedup(Parsed(SplitLines(text))))
  {
    var kept := ToEvents(Dedup(Parsed(SplitLines(text))));
    LoadedEventsOrdered(text);
    forall e
      ensures e in LoadedEvents(text) <==> e in kept
    {
      assert e in LoadedEvents(text) <==> e in multiset(LoadedEvents(text));
      assert e in kept <==> e in multiset(kept);
    }
  }

  lemma EventKeysOfRows(rows: seq<Row>)
    ensures (set e | e in ToEvents(rows) :: EventKey(e)) == Keys(rows)
  {
    var events := ToEvents(rows);
    forall r | r in rows
      ensures KeyOf(r) in (set e | e in events :: EventKey(e))
    {
      var i :| 0 <= i < |rows| && rows[i] == r;
      assert events[i] in events;
    }
    forall e | e in events
      ensures EventKey(e) in Keys(rows)
    {
      var i :| 0 <= i < |events| && events[i] == e;
      assert rows[i] in rows;
    }
  }

  /** Every key of a line that gives a row is the key of a loaded event. */
  lemma LoadedEventsKeys(text: string)
    ensures (set e | e in LoadedEvents(text) :: EventKey(e)) == Keys(Parsed(SplitLines(text)))
  {
    var parsed := Parsed(SplitLines(text));
    LoadedEventsMembers(text);
    SameMembersSameKeys(LoadedEvents(text), ToEvents(Dedup(parsed)));
    DedupKeys(parsed);
    EventKeysOfRows(Dedup(parsed));
  }

  lemma SameMembersSameKeys(a: seq<Event>, b: seq<Event>)
    requires forall e :: e in a <==> e in b
    ensures (set e | e in a :: EventKey(e)) == (set e | e in b :: EventKey(e))
  {
  }

  /** Every loaded event's id is the fingerprint of its key. */
  lemma LoadedEventsIds(text: string)
    ensures forall e :: e in LoadedEvents(text) ==> e.id == Fingerprint(EventKey(e))
  {
    LoadedEventsMembers(text);
  }
}
