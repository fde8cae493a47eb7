/** `escapeIcsText`, `foldLine` and `createIcs`: the calendar file for a list
    of events. Text values are escaped as TEXT (section 3.3.11 of RFC 5545),
    every content line is folded at 75 UTF-16 code units with a leading space
    on each continuation (section 3.1 of RFC 5545, which counts octets), dates
    are written as DATE values (section 3.3.4), and the lines are joined with
    CRLF, one more after the last. */
module Ics {
  import opened Wrappers
  import opened Text
  import opened Sorting
  import opened Dates
  import opened Fnv
  import opened Events

  /** `value.replaceAll(target, replacement)` for a one-character target. */
  function ReplaceAll(s: string, target: char, replacement: string): (r: string)
    ensures target !in replacement ==> target !in r
    ensures target !in s ==> r == s
  {
    if s == [] then []
    else (if s[0] == target then replacement else [s[0]]) + ReplaceAll(s[1..], target, replacement)
  }

  lemma {:induction false} ReplaceAllAppend(a: string, b: string, target: char, replacement: string)
    ensures ReplaceAll(a + b, target, replacement) == ReplaceAll(a, target, replacement) + ReplaceAll(b, target, replacement)
  {
    if a == [] {
      assert a + b == b;
    } else {
      assert (a + b)[0] == a[0] && (a + b)[1..] == a[1..] + b;
      ReplaceAllAppend(a[1..], b, target, replacement);
    }
  }

  /** `escapeIcsText`: backslash first, then semicolon, comma and line feed. */
  function EscapeText(value: string): (escaped: string)
    ensures '\n' !in escaped
    ensures '\\' !in value && ';' !in value && ',' !in value && '\n' !in value ==> escaped == value
  {
    ReplaceAll(ReplaceAll(ReplaceAll(ReplaceAll(value, '\\', "\\\\"), ';', "\\;"), ',', "\\,"), '\n', "\\n")
  }

  /** What one character becomes in an escaped text. */
  function EscapeChar(c: char): (r: string)
    ensures 1 <= |r| <= 2
    ensures r[0] != ';' && r[0] != ',' && r[0] != '\n'
    ensures |r| == 2 ==> r[0] == '\\'
  {
    if c == '\\' then "\\\\"
    else if c == ';' then "\\;"
    else if c == ',' then "\\,"
    else if c == '\n' then "\\n"
    else [c]
  }

  function EscapeEach(s: string): string {
    if s == [] then [] else EscapeChar(s[0]) + EscapeEach(s[1..])
  }

  lemma EscapeOneChar(c: char)
    ensures EscapeText([c]) == EscapeChar(c)
  {
    var r1 := ReplaceAll([c], '\\', "\\\\");
    assert r1 == (if c == '\\' then "\\\\" else [c]);
    var r2 := ReplaceAll(r1, ';', "\\;");
    if c == '\\' {
      assert r1 == ['\\'] + ['\\'];
      assert r2 == "\\\\";
    }
  }

  /** The four replacements in a row escape each character on its own: the
      later ones never see a character an earlier one put in. */
  lemma {:induction false} EscapeTextEach(s: string)
    ensures EscapeText(s) == EscapeEach(s)
  {
    if s != [] {
      var c, t := s[0], s[1..];
      assert s == [c] + t;
      EscapeTextEach(t);
      EscapeOneChar(c);
      var a1, b1 := ReplaceAll([c], '\\', "\\\\"), ReplaceAll(t, '\\', "\\\\");
      ReplaceAllAppend([c], t, '\\', "\\\\");
      var a2, b2 := ReplaceAll(a1, ';', "\\;"), ReplaceAll(b1, ';', "\\;");
      ReplaceAllAppend(a1, b1, ';', "\\;");
      var a3, b3 := ReplaceAll(a2, ',', "\\,"), ReplaceAll(b2, ',', "\\,");
      ReplaceAllAppend(a2, b2, ',', "\\,");
      ReplaceAllAppend(a3, b3, '\n', "\\n");
    }
  }

  /** Reading an escaped text back: a backslash and the character after it
      stand for that character, `\n` for a line feed. */
  function Unescape(s: string): string {
    if s == [] then []
    else if s[0] == '\\' && |s| >= 2 then (if s[1] == 'n' then "\n" else [s[1]]) + Unescape(s[2..])
    else [s[0]] + Unescape(s[1..])
  }

  lemma {:induction false} UnescapeEach(s: string)
    ensures Unescape(EscapeEach(s)) == s
  {
    if s != [] {
      UnescapeEach(s[1..]);
      var r := EscapeChar(s[0]);
      var rest := EscapeEach(s[1..]);
      var e := r + rest;
      if |r| == 2 {
        assert e[2..] == rest;
      } else {
        assert e[1..] == rest;
      }
      assert s == [s[0]] + s[1..];
    }
  }

  /** Escaping loses nothing: the escaped text reads back as the text. */
  lemma UnescapeEscape(s: string)
    ensures Unescape(EscapeText(s)) == s
  {
    EscapeTextEach(s);
    UnescapeEach(s);
  }

  /** An escaped text holds no line feed, and each semicolon and comma in it has a backslash before it. */
  lemma {:induction false} EscapeEachQuoted(s: string)
    ensures var e := EscapeEach(s);
      && '\n' !in e
      && (forall i :: 0 <= i < |e| && (e[i] == ';' || e[i] == ',') ==> i > 0 && e[i - 1] == '\\')
      && (e == [] || (e[0] != ';' && e[0] != ','))
  {
    if s != [] {
      EscapeEachQuoted(s[1..]);
      var r := EscapeChar(s[0]);
      var rest := EscapeEach(s[1..]);
      var e := r + rest;
      forall i | 0 <= i < |e| && (e[i] == ';' || e[i] == ',')
        ensures i > 0 && e[i - 1] == '\\'
      {
        if i >= |r| {
          assert e[i] == rest[i - |r|];
          if i == |r| {
            assert false;
          }
          assert e[i - 1] == rest[i - 1 - |r|];
        }
      }
      assert '\n' !in r;
    }
  }

  lemma EscapedText(s: string)
    ensures '\n' !in EscapeText(s)
    ensures var e := EscapeText(s);
      forall i :: 0 <= i < |e| && (e[i] == ';' || e[i] == ',') ==> i > 0 && e[i - 1] == '\\'
  {
    EscapeTextEach(s);
    EscapeEachQuoted(s);
  }

  /** A line of the calendar text as JavaScript holds it: UTF-16 code units. */
  type Units = seq<CodeUnit>

  const MaxLineLength: nat := 75
  const Space: CodeUnit := 0x20

  /** The pieces `foldLine` cuts a line into: the first 75 units, then a space
      and the next 74, and so on; a line of at most 75 units stays whole. */
  function FoldSpec(line: Units): (pieces: seq<Units>)
    ensures |pieces| >= 1
    decreases |line|
  {
    if |line| <= MaxLineLength then [line]
    else [line[..MaxLineLength]] + FoldSpec([Space] + line[MaxLineLength..])
  }

  /** No piece is longer than 75 units, only the piece of an empty line is
      empty, every piece after the first begins with a space, and the first
      piece is the start of the line. */
  lemma {:induction false} FoldShape(line: Units)
    ensures var pieces := FoldSpec(line);
      && (forall i :: 0 <= i < |pieces| ==> |pieces[i]| <= MaxLineLength)
      && (forall i :: 0 <= i < |pieces| ==> |pieces[i]| >= 1 || line == [])
      && (forall i :: 1 <= i < |pieces| ==> pieces[i][0] == Space)
      && (|line| <= MaxLineLength ==> pieces == [line])
      && (|line| > MaxLineLength ==> pieces[0] == line[..MaxLineLength])
    decreases |line|
  {
    if |line| > MaxLineLength {
      var next := [Space] + line[MaxLineLength..];
      FoldShape(next);
      var pieces, tail := FoldSpec(line), FoldSpec(next);
      assert pieces == [line[..MaxLineLength]] + tail;
      forall i | 1 <= i < |pieces|
        ensures pieces[i][0] == Space && 1 <= |pieces[i]| <= MaxLineLength
      {
        assert pieces[i] == tail[i - 1];
        if i == 1 {
          assert tail[0][0] == next[0];
        }
      }
    }
  }

  /** A continuation line without the space that begins it. */
  function Unindent(piece: Units): Units {
    if piece != [] && piece[0] == Space then piece[1..] else piece
  }

  /** Unfolding: the first piece, then the others without their leading space. */
  function Unfold(pieces: seq<Units>): Units {
    if pieces == [] then [] else pieces[0] + Rejoin(pieces[1..])
  }

  function Rejoin(pieces: seq<Units>): Units {
    if pieces == [] then [] else Unindent(pieces[0]) + Rejoin(pieces[1..])
  }

  /** Unfolding the pieces of a line gives the line back. */
  lemma {:induction false} UnfoldFold(line: Units)
    ensures Unfold(FoldSpec(line)) == line
    decreases |line|
  {
    if |line| > MaxLineLength {
      var next := [Space] + line[MaxLineLength..];
      var tail := FoldSpec(next);
      UnfoldFold(next);
      FoldShape(next);
      assert FoldSpec(line)[1..] == tail;
      assert tail[0][0] == Space;
      assert Unindent(tail[0]) + Rejoin(tail[1..]) == next[1..];
      assert line[..MaxLineLength] + line[MaxLineLength..] == line;
    }
  }

  /** `foldLine` as written: a loop that cuts 75 units off the remainder and
      puts a space in front of what is left. */
  method FoldLine(line: Units) returns (folded: seq<Units>)
    ensures folded == FoldSpec(line)
  {
    if |line| <= MaxLineLength {
      return [line];
    }
    folded := [];
    var remaining := line;
    while |remaining| > MaxLineLength
      invariant folded + FoldSpec(remaining) == FoldSpec(line)
      decreases |remaining|
    {
      var piece := remaining[..MaxLineLength];
      var rest := [Space] + remaining[MaxLineLength..];
      assert FoldSpec(remaining) == [piece] + FoldSpec(rest);
      folded := folded + [piece];
      remaining := rest;
    }
    folded := folded + [remaining];
  }

  const FixedDtstamp := "20000101T000000Z"

  /** The calendar's opening lines. */
  function CalendarHeader(calendarName: string): seq<string> {
    [ "BEGIN:VCALENDAR",
      ContentLine("VERSION", "2.0"),
      ContentLine("CALSCALE", "GREGORIAN"),
      ContentLine("PRODID", "-//Sportkalender Web//Calendar Export//EN"),
      ContentLine("X-WR-CALNAME", EscapeText(calendarName)) ]
  }

  /** `NAME:value`: the name, a colon, and the value after it. */
  function ContentLine(name: string, value: string): (line: string)
    ensures |line| == |name| + 1 + |value|
    ensures line[|name|] == ':' && line[|name| + 1..] == value
    ensures |name| > 0 ==> line[0] == name[0]
  {
    name + ":" + value
  }

  lemma ContentLinePrefix(name: string, value: string)
    ensures StartsWith(ContentLine(name, value), name + ":")
  {
  }

  /** An event's UID: the fingerprint of its key under the web export's domain. */
  function Uid(e: Event): (uid: string)
    ensures |uid| == 8 + |"@sportkalender-web"|
    ensures forall i :: 0 <= i < 8 ==> IsHexDigit(uid[i])
    ensures uid[8..] == "@sportkalender-web"
  {
    Fingerprint(EventKey(e)) + "@sportkalender-web"
  }

  /** The five property lines every block has: UID, DTSTAMP, DTSTART, DTEND and
      SUMMARY, from their values. */
  function PropertyLines(uid: string, start: string, end: string, summary: string): (props: seq<string>)
    ensures |props| == 5
    ensures forall i :: 0 <= i < 5 ==> |props[i]| > 0 && props[i][0] != 'B' && props[i][0] != 'E' && props[i][0] != 'L'
  {
    [ ContentLine("UID", uid),
      ContentLine("DTSTAMP", FixedDtstamp),
      ContentLine("DTSTART;VALUE=DATE", start),
      ContentLine("DTEND;VALUE=DATE", end),
      ContentLine("SUMMARY", summary) ]
  }

  function EventProperties(e: Event, format: TitleFormat): (props: seq<string>)
    ensures |props| == 5
  {
    PropertyLines(Uid(e), ToBasicDate(e.startDate), ToBasicDate(e.endDateExclusive), EscapeText(BuildSummary(e, format)))
  }

  /** The LOCATION line, present only for an event with a location. */
  function LocationLines(e: Event): (opt: seq<string>)
    ensures |opt| == (if e.location != "" then 1 else 0)
    ensures forall i :: 0 <= i < |opt| ==> |opt[i]| > 0 && opt[i][0] == 'L'
  {
    if e.location != "" then [ContentLine("LOCATION", EscapeText(e.location))] else []
  }

  /** A `VEVENT` block around its property lines. */
  function Block(props: seq<string>, opt: seq<string>): (lines: seq<string>)
    ensures |lines| == |props| + |opt| + 2
  {
    ["BEGIN:VEVENT"] + props + opt + ["END:VEVENT"]
  }

  /** One event's `VEVENT` block. */
  function EventLines(e: Event, format: TitleFormat): seq<string> {
    Block(EventProperties(e, format), LocationLines(e))
  }

  /** Blocks of lines run together. */
  function Concat(blocks: seq<seq<string>>): seq<string> {
    if blocks == [] then [] else blocks[0] + Concat(blocks[1..])
  }

  /** One block per event, in the events' order. */
  function EventBlocks(events: seq<Event>, format: TitleFormat): (blocks: seq<seq<string>>)
    ensures |blocks| == |events|
    ensures forall i :: 0 <= i < |events| ==> blocks[i] == EventLines(events[i], format)
  {
    seq(|events|, i requires 0 <= i < |events| => EventLines(events[i], format))
  }

  /** The blocks of the events, one after another. */
  function BlocksOf(events: seq<Event>, format: TitleFormat): seq<string> {
    Concat(EventBlocks(events, format))
  }

  /** The content lines of `createIcs` before folding. */
  function IcsLines(events: seq<Event>, calendarName: string, format: TitleFormat): (lines: seq<string>)
  {
    CalendarHeader(calendarName) + BlocksOf(SortEvents(events, format), format) + ["END:VCALENDAR"]
  }

  /** `lines.flatMap((line) => foldLine(line))` over the lines' code units. */
  function FoldAll(lines: seq<string>): seq<Units> {
    if lines == [] then [] else FoldSpec(Utf16(lines[0])) + FoldAll(lines[1..])
  }

  const Crlf: Units := [0x0D, 0x0A]

  /** What `createIcs` returns: the folded lines joined with CRLF, and a final CRLF. */
  function IcsText(events: seq<Event>, calendarName: string, format: TitleFormat): (ics: Units)
    ensures |ics| >= |Crlf| && ics[|ics| - |Crlf|..] == Crlf
  {
    Join(FoldAll(IcsLines(events, calendarName, format)), Crlf) + Crlf
  }

  /** `createIcs` as written: the header lines, a block pushed per sorted
      event, the closing line, then every line folded and the pieces joined. */
  method CreateIcs(events: seq<Event>, calendarName: string, format: TitleFormat) returns (ics: Units)
    ensures ics == IcsText(events, calendarName, format)
  {
    var sorted := SortEvents(events, format);
    var lines := PushBlocks(CalendarHeader(calendarName), EventBlocks(sorted, format));
    lines := lines + ["END:VCALENDAR"];
    var physical := FoldLines(lines);
    ics := Join(physical, Crlf) + Crlf;
  }

  /** The loop of `createIcs` that pushes each event's block onto the lines. */
  method PushBlocks(lines: seq<string>, blocks: seq<seq<string>>) returns (pushed: seq<string>)
    ensures pushed == lines + Concat(blocks)
  {
    pushed := lines;
    for i := 0 to |blocks|
      invariant pushed == lines + Concat(blocks[..i])
    {
      ConcatSnoc(blocks[..i + 1]);
      assert blocks[..i + 1][..i] == blocks[..i];
      pushed := pushed + blocks[i];
    }
    assert blocks[..|blocks|] == blocks;
  }

  /** `lines.flatMap((line) => foldLine(line))`. */
  method FoldLines(lines: seq<string>) returns (physical: seq<Units>)
    ensures physical == FoldAll(lines)
  {
    physical := [];
    for i := 0 to |lines|
      invariant physical == FoldAll(lines[..i])
    {
      var pieces := FoldLine(Utf16(lines[i]));
      FoldAllAppend(lines[..i], [lines[i]]);
      assert lines[..i + 1] == lines[..i] + [lines[i]];
      physical := physical + pieces;
    }
    assert lines[..|lines|] == lines;
  }

  lemma {:induction false} ConcatSnoc(blocks: seq<seq<string>>)
    requires blocks != []
    ensures Concat(blocks) == Concat(blocks[..|blocks| - 1]) + blocks[|blocks| - 1]
  {
    if |blocks| > 1 {
      ConcatSnoc(blocks[1..]);
      assert blocks[1..][..|blocks| - 2] == blocks[..|blocks| - 1][1..];
    }
  }

  lemma {:induction false} FoldAllAppend(a: seq<string>, b: seq<string>)
    ensures FoldAll(a + b) == FoldAll(a) + FoldAll(b)
  {
    if a == [] {
      assert a + b == b;
    } else {
      assert (a + b)[0] == a[0] && (a + b)[1..] == a[1..] + b;
      FoldAllAppend(a[1..], b);
    }
  }

  lemma {:induction false} JoinAppend<T>(a: seq<seq<T>>, b: seq<seq<T>>, sep: seq<T>)
    requires a != [] && b != []
    ensures Join(a + b, sep) == Join(a, sep) + sep + Join(b, sep)
  {
    if |a| == 1 {
      assert (a + b)[1..] == b;
    } else {
      assert (a + b)[1..] == a[1..] + b;
      JoinAppend(a[1..], b, sep);
    }
  }

  /** The number of lines equal to `x`. */
  function CountOf(lines: seq<string>, x: string): nat {
    if lines == [] then 0 else (if lines[0] == x then 1 else 0) + CountOf(lines[1..], x)
  }

  lemma {:induction false} CountOfAppend(a: seq<string>, b: seq<string>, x: string)
    ensures CountOf(a + b, x) == CountOf(a, x) + CountOf(b, x)
  {
    if a == [] {
      assert a + b == b;
    } else {
      assert (a + b)[1..] == a[1..] + b;
      CountOfAppend(a[1..], b, x);
    }
  }

  lemma {:induction false} CountOfAbsent(lines: seq<string>, x: string)
    requires forall i :: 0 <= i < |lines| ==> lines[i] != x
    ensures CountOf(lines, x) == 0
  {
    if lines != [] {
      CountOfAbsent(lines[1..], x);
    }
  }

  lemma CountOfFour(a: seq<string>, b: seq<string>, c: seq<string>, d: seq<string>, x: string)
    ensures CountOf(a + b + c + d, x) == CountOf(a, x) + CountOf(b, x) + CountOf(c, x) + CountOf(d, x)
  {
    CountOfAppend(a, b, x);
    CountOfAppend(a + b, c, x);
    CountOfAppend(a + b + c, d, x);
  }

  /** Lines whose first character differs from that of `x` are never `x`. */
  lemma {:induction false} CountOfOtherFirst(lines: seq<string>, x: string)
    requires |x| > 0
    requires forall i :: 0 <= i < |lines| ==> |lines[i]| > 0 && lines[i][0] != x[0]
    ensures CountOf(lines, x) == 0
  {
    forall i | 0 <= i < |lines|
      ensures lines[i] != x
    {
      assert lines[i][0] != x[0];
    }
    CountOfAbsent(lines, x);
  }

  /** A block whose property lines do not begin with `B` holds one `BEGIN:VEVENT` line. */
  lemma BlockCount(props: seq<string>, opt: seq<string>)
    requires forall i :: 0 <= i < |props| ==> |props[i]| > 0 && props[i][0] != 'B'
    requires forall i :: 0 <= i < |opt| ==> |opt[i]| > 0 && opt[i][0] != 'B'
    ensures CountOf(Block(props, opt), "BEGIN:VEVENT") == 1
  {
    var x := "BEGIN:VEVENT";
    assert x[0] == 'B';
    CountOfOtherFirst(props, x);
    CountOfOtherFirst(opt, x);
    assert |"END:VEVENT"| != |x|;
    CountOfAbsent(["END:VEVENT"], x);
    CountOfFour([x], props, opt, ["END:VEVENT"], x);
  }

  /** An event's block opens with `BEGIN:VEVENT` and has no other line opening a block. */
  lemma BlockOpensOnce(e: Event, format: TitleFormat)
    ensures CountOf(EventLines(e, format), "BEGIN:VEVENT") == 1
  {
    PropertyBlockCount(Uid(e), ToBasicDate(e.startDate), ToBasicDate(e.endDateExclusive),
      EscapeText(BuildSummary(e, format)), LocationLines(e));
  }

  lemma PropertyBlockCount(uid: string, start: string, end: string, summary: string, opt: seq<string>)
    requires forall i :: 0 <= i < |opt| ==> |opt[i]| > 0 && opt[i][0] == 'L'
    ensures CountOf(Block(PropertyLines(uid, start, end, summary), opt), "BEGIN:VEVENT") == 1
  {
    BlockCount(PropertyLines(uid, start, end, summary), opt);
  }

  /** Blocks that each hold `x` once hold it, run together, once per block. */
  lemma {:induction false} CountConcat(blocks: seq<seq<string>>, x: string)
    requires forall i :: 0 <= i < |blocks| ==> CountOf(blocks[i], x) == 1
    ensures CountOf(Concat(blocks), x) == |blocks|
  {
    if blocks != [] {
      CountConcat(blocks[1..], x);
      CountOfAppend(blocks[0], Concat(blocks[1..]), x);
    }
  }

  lemma BlocksOpenOnce(events: seq<Event>, format: TitleFormat)
    ensures CountOf(BlocksOf(events, format), "BEGIN:VEVENT") == |events|
  {
    var blocks := EventBlocks(events, format);
    forall i | 0 <= i < |blocks|
      ensures CountOf(blocks[i], "BEGIN:VEVENT") == 1
    {
      BlockOpensOnce(events[i], format);
    }
    CountConcat(blocks, "BEGIN:VEVENT");
  }

  lemma CountBetween(a: seq<string>, b: seq<string>, c: seq<string>, x: string)
    requires CountOf(a, x) == 0 && CountOf(c, x) == 0
    ensures CountOf(a + b + c, x) == CountOf(b, x)
  {
    CountOfAppend(a, b, x);
    CountOfAppend(a + b, c, x);
  }

  /** Five lines none of which is `x`, told by their first characters. */
  lemma FiveLinesWithout(l0: string, l1: string, l2: string, l3: string, l4: string, x: string)
    requires |x| > 0
    requires |l0| > 0 && |l1| > 0 && |l2| > 0 && |l3| > 0 && |l4| > 0
    requires l1[0] != x[0] && l2[0] != x[0] && l3[0] != x[0] && l4[0] != x[0]
    requires |l0| != |x|
    ensures CountOf([l0, l1, l2, l3, l4], x) == 0
  {
    var lines := [l0, l1, l2, l3, l4];
    forall i | 0 <= i < 5
      ensures lines[i] != x
    {
      if i > 0 {
        assert lines[i][0] != x[0];
      }
    }
    CountOfAbsent(lines, x);
  }

  lemma HeaderNeverOpens(calendarName: string)
    ensures CountOf(CalendarHeader(calendarName), "BEGIN:VEVENT") == 0
  {
    var header := CalendarHeader(calendarName);
    FiveLinesWithout(header[0], header[1], header[2], header[3], header[4], "BEGIN:VEVENT");
    assert header == [header[0], header[1], header[2], header[3], header[4]];
  }

  /** The calendar has exactly one `BEGIN:VEVENT` line per event. */
  lemma OneBlockPerEvent(events: seq<Event>, calendarName: string, format: TitleFormat)
    ensures CountOf(IcsLines(events, calendarName, format), "BEGIN:VEVENT") == |events|
  {
    var sorted := SortEvents(events, format);
    SortEventsSpec(events, format);
    assert |sorted| == |multiset(sorted)| == |multiset(events)| == |events|;
    HeaderNeverOpens(calendarName);
    BlocksOpenOnce(sorted, format);
    CountOfAbsent(["END:VCALENDAR"], "BEGIN:VEVENT");
    CountBetween(CalendarHeader(calendarName), BlocksOf(sorted, format), ["END:VCALENDAR"], "BEGIN:VEVENT");
  }

  /** In a block whose property lines do not begin like `prefix`, a line with
      that prefix can only be one of the optional lines. */
  lemma BlockPrefixed(props: seq<string>, opt: seq<string>, prefix: string)
    requires |prefix| > 0 && prefix[0] != 'B' && prefix[0] != 'E'
    requires forall i :: 0 <= i < |props| ==> |props[i]| > 0 && props[i][0] != prefix[0]
    ensures (exists l :: l in Block(props, opt) && StartsWith(l, prefix)) <==> (exists l :: l in opt && StartsWith(l, prefix))
  {
    var lines := Block(props, opt);
    assert "BEGIN:VEVENT"[0] == 'B' && "END:VEVENT"[0] == 'E';
    forall l | l in lines && StartsWith(l, prefix)
      ensures l in opt
    {
      assert l[0] == prefix[0];
    }
  }

  /** A block has a `LOCATION` line exactly when the event has a location. */
  lemma BlockLocation(e: Event, format: TitleFormat)
    ensures (exists l :: l in EventLines(e, format) && StartsWith(l, "LOCATION:")) <==> e.location != ""
  {
    var opt := LocationLines(e);
    assert "LOCATION:"[0] == 'L';
    BlockPrefixed(EventProperties(e, format), opt, "LOCATION:");
    if e.location != "" {
      ContentLinePrefix("LOCATION", EscapeText(e.location));
      assert StartsWith(opt[0], "LOCATION:") && opt[0] in opt;
    }
  }

  /** The line after `BEGIN:VEVENT` at offset `k` is the `k`-th property line. */
  lemma BlockIndex(props: seq<string>, opt: seq<string>, k: nat)
    requires k < |props|
    ensures Block(props, opt)[k + 1] == props[k]
  {
  }

  /** The date and summary lines among the property lines. */
  lemma PropertyAt(uid: string, start: string, end: string, summary: string)
    ensures PropertyLines(uid, start, end, summary)[2] == ContentLine("DTSTART;VALUE=DATE", start)
    ensures PropertyLines(uid, start, end, summary)[3] == ContentLine("DTEND;VALUE=DATE", end)
    ensures PropertyLines(uid, start, end, summary)[4] == ContentLine("SUMMARY", summary)
  {
  }

  /** The DTSTART and DTEND lines of a block hold the event's dates without
      hyphens, as DATE values (which read back as the days, `BasicDateRoundTrip`). */
  lemma BlockDates(e: Event, format: TitleFormat)
    ensures EventLines(e, format)[3] == ContentLine("DTSTART;VALUE=DATE", ToBasicDate(e.startDate))
    ensures EventLines(e, format)[4] == ContentLine("DTEND;VALUE=DATE", ToBasicDate(e.endDateExclusive))
  {
    var start, end := ToBasicDate(e.startDate), ToBasicDate(e.endDateExclusive);
    var summary := EscapeText(BuildSummary(e, format));
    PropertyAt(Uid(e), start, end, summary);
    BlockIndex(EventProperties(e, format), LocationLines(e), 2);
    BlockIndex(EventProperties(e, format), LocationLines(e), 3);
  }

  /** The SUMMARY line of a block holds the escaped summary, which reads back as the summary. */
  lemma BlockSummary(e: Event, format: TitleFormat)
    ensures EventLines(e, format)[5] == ContentLine("SUMMARY", EscapeText(BuildSummary(e, format)))
    ensures Unescape(EscapeText(BuildSummary(e, format))) == BuildSummary(e, format)
  {
    var start, end := ToBasicDate(e.startDate), ToBasicDate(e.endDateExclusive);
    var summary := EscapeText(BuildSummary(e, format));
    PropertyAt(Uid(e), start, end, summary);
    BlockIndex(EventProperties(e, format), LocationLines(e), 4);
    UnescapeEscape(BuildSummary(e, format));
  }

  /** A line of at most 37 characters is never folded. */
  lemma FoldShortLine(s: string)
    requires 2 * |s| <= MaxLineLength
    ensures FoldSpec(Utf16(s)) == [Utf16(s)]
  {
    Utf16Length(s);
    FoldShape(Utf16(s));
  }

  lemma FoldAllFirst(lines: seq<string>)
    requires lines != []
    ensures FoldAll(lines) != [] && FoldAll(lines)[0] == FoldSpec(Utf16(lines[0]))[0]
  {
    var head := FoldSpec(Utf16(lines[0]));
    assert FoldAll(lines) == head + FoldAll(lines[1..]);
    assert (head + FoldAll(lines[1..]))[0] == head[0];
  }

  lemma {:induction false} FoldAllLast(lines: seq<string>)
    requires lines != []
    ensures var f := FoldAll(lines); var l := FoldSpec(Utf16(lines[|lines| - 1]));
      f != [] && f[|f| - 1] == l[|l| - 1]
  {
    var head := FoldSpec(Utf16(lines[0]));
    var tail := FoldAll(lines[1..]);
    assert FoldAll(lines) == head + tail;
    if |lines| > 1 {
      FoldAllLast(lines[1..]);
      assert lines[1..][|lines| - 2] == lines[|lines| - 1];
      assert (head + tail)[|head + tail| - 1] == tail[|tail| - 1];
    }
  }

  lemma {:induction false} JoinLast<T>(parts: seq<seq<T>>, sep: seq<T>)
    requires |parts| >= 1
    ensures var j := Join(parts, sep); var last := parts[|parts| - 1];
      |j| >= |last| && j[|j| - |last|..] == last
  {
    if |parts| > 1 {
      JoinLast(parts[1..], sep);
      assert parts[1..][|parts| - 2] == parts[|parts| - 1];
    }
  }

  /** `text` begins with the units of `a` and a CRLF and ends with the units of `b` and a CRLF. */
  predicate Framed(text: Units, a: string, b: string) {
    var first, last := Utf16(a) + Crlf, Utf16(b) + Crlf;
    |text| >= |first| && |text| >= |last| && text[..|first|] == first && text[|text| - |last|..] == last
  }

  /** Pieces joined with CRLF and a CRLF after the last begin with the first
      piece and a CRLF and end with the last piece and a CRLF. */
  lemma FrameOfJoined(pieces: seq<Units>, a: string, b: string)
    requires |pieces| >= 2 && pieces[0] == Utf16(a) && pieces[|pieces| - 1] == Utf16(b)
    ensures Framed(Join(pieces, Crlf) + Crlf, a, b)
  {
    var j := Join(pieces, Crlf);
    var text := j + Crlf;
    var first, last := Utf16(a) + Crlf, Utf16(b) + Crlf;
    assert j == pieces[0] + Crlf + Join(pieces[1..], Crlf);
    assert text[..|first|] == first;
    JoinLast(pieces, Crlf);
    assert text[|text| - |last|..] == j[|j| - |Utf16(b)|..] + Crlf;
  }

  /** The first physical line of lines opening with a short line `a` is `a`,
      and the last of lines closing with a short line `b` is `b`. */
  lemma PhysicalEnds(lines: seq<string>, a: string, b: string)
    requires |lines| >= 2 && lines[0] == a && lines[|lines| - 1] == b
    requires 2 * |a| <= MaxLineLength && 2 * |b| <= MaxLineLength
    ensures var f := FoldAll(lines); |f| >= 2 && f[0] == Utf16(a) && f[|f| - 1] == Utf16(b)
  {
    FoldShortLine(a);
    FoldShortLine(b);
    FoldAllFirst(lines);
    FoldAllLast(lines);
    FoldAllAppend([lines[0]], lines[1..]);
    assert lines == [lines[0]] + lines[1..];
    FoldAllLast(lines[1..]);
  }

  /** Lines that open with a short line `a` and close with a short line `b`,
      folded and joined, open with `a` and a CRLF and close with `b` and a CRLF. */
  lemma FramedText(lines: seq<string>, a: string, b: string)
    requires |lines| >= 2 && lines[0] == a && lines[|lines| - 1] == b
    requires 2 * |a| <= MaxLineLength && 2 * |b| <= MaxLineLength
    ensures Framed(Join(FoldAll(lines), Crlf) + Crlf, a, b)
  {
    PhysicalEnds(lines, a, b);
    FrameOfJoined(FoldAll(lines), a, b);
  }

  /** The calendar text opens with `BEGIN:VCALENDAR` and a CRLF and closes with `END:VCALENDAR` and a CRLF. */
  lemma IcsTextFrame(events: seq<Event>, calendarName: string, format: TitleFormat)
    ensures Framed(IcsText(events, calendarName, format), "BEGIN:VCALENDAR", "END:VCALENDAR")
  {
    FramedText(IcsLines(events, calendarName, format), "BEGIN:VCALENDAR", "END:VCALENDAR");
  }
}
