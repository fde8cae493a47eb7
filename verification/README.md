# Sportkalender core in Dafny

Sportkalender turns a tab-separated table of German sports events into an
iCalendar export. The table has columns date range, title, sport and
location. There are two implementations:

- **Web page (`web/app.js`).** Loads the table and derives event ids and
  dates. It groups the sports into sidebar categories. It keeps the
  checked sports and events in a mutable `state` object. It writes the
  selected events as an `.ics` text.
- **Python package (`sportkalender/core.py`).** Loads the same table into
  `SportEvent` records with strict date parsing, an optional sport filter,
  de-duplication and sorting.

This project models both cores and proves what they promise.

| module | file | models |
|---|---|---|
| `Wrappers` | `wrappers.dfy` | `Option` and `Result` |
| `Text` | `text.dfy` | JavaScript `trim` and Python `strip`, ASCII lower-casing, `split`/`join`, a code-point string order |
| `Sorting` | `sorting.dfy` | a comparator sort, proved ordered and a permutation |
| `Dates` | `dates.dfy` | proleptic Gregorian dates: `Date.UTC` roll-over, `addDays`, `toIsoDate`, `toBasicDate` |
| `DateRange` | `date_range.dfy` | the `\d{1,2}\.\d{1,2}\.\d{4}` scan, `parseGermanDate`, `parseDateRange` |
| `Fnv` | `fingerprint.dfy` | UTF-16 code units, 32-bit FNV-1a, `hashHex` |
| `Events` | `events.dfy` | the event record, `buildSummary`, the dedup key, the event order, the sorted sports list |
| `TsvLoader` | `tsv_loader.dfy` | `loadEventsFromTsv` of the web page |
| `Ics` | `ics.dfy` | `escapeIcsText`, `foldLine`, `createIcs` |
| `Categories` | `categories.dfy` | `normalizeSportKey`, `resolveSportCategory`, `groupSportsByCategory` |
| `Selection` | `selection.dfy` | the page `state` as class `AppState`: boot, the handlers, `applyFilters`, `syncEventChecksToSportsSelection`, `getSelectedSummary`, export |
| `PyCore` | `py_core.dfy` | `SportEvent.summary`, `parse_date_range`, `load_events_from_tsv`, `available_sports` |

## Design

- **Loops become methods.** Each is proved equal to a specification
  function, and the properties are lemmas about that function:
  - `HashHex`, `FoldLine` and `CreateIcs` (with `PushBlocks` and
    `FoldLines`);
  - the `loadEventsFromTsv` loop (`KeepFirstRows`);
  - `GroupSportsByCategory` (with `CollectBuckets`);
  - `AddIds` and `RemoveIds`;
  - `PyCore.LoadEventsFromTsv`.
- **The page `state` is class `Selection.AppState`.** Its handlers are
  methods with `modifies this`. Each handler states its whole new state
  and keeps the invariant `Valid()`:
  - `sports` is the sorted list of distinct non-empty sports of `events`;
  - `visibleEvents` are the events matching `query`.
- **JavaScript dates are pinned.**
  - `Date.UTC` normalises an out-of-range day or month by rolling over:
    31.02.2025 becomes 3 March.
  - Years 0 to 99 mean 1900 to 1999.
  - `toISOString().slice(0, 10)` cuts the text of a year after 9999.
- **Python dates are modelled with their exceptions.**
  - `strptime` raises `ValueError` on an invalid date or year 0.
  - `date + timedelta(days=1)` raises `OverflowError` after 9999-12-31.
- **Text is UTF-16 where JavaScript uses code units.** The page's strings
  are UTF-16. So `hashHex` hashes and `foldLine` counts code units, and
  the model encodes `string` to code units explicitly.
- **Regex scan.** The regular expression is scanned left to right with
  greedy digit runs. `RegexAt` states the pattern itself, with a day and a
  month of one or two digits. The lemmas prove that the greedy runs match at
  an index exactly when some reading of the pattern fits there. That reading
  is unique, so the greedy scan finds the same matches as backtracking.

### Behaviour worth knowing

- **`applyFilters` (web/app.js:184-197)** filters by the search query
  only. The checked sports change which events are selected. They do not
  change which events are visible.
- **The export (web/app.js:297-327)** takes the events whose id is
  selected. Their sport plays no part.
- **Ranges are not always non-empty.** A reversed range such as
  `05.03.2025 - 01.03.2025` gives an end before its start in both
  implementations. `RangeNonEmptyUnlessReversed` states exactly when
  start < end holds.
- **The dedup key can collide.**
  - The web key joins the five fields with `|`. Two different rows whose
    title or sport holds a `|` can share a key (`RowKeyAmbiguous`).
  - The key is injective when no field holds `|` (`RowKeyInjective`).
  - Python de-duplicates on the field tuple, which cannot collide.

## Model

| member | source | states |
|---|---|---|
| Text.Trim | web/app.js:340 | the trimmed text starts and ends with a non-space; it is empty exactly when the input is all spaces; a text without outer spaces is left as it is |
| Text.TrimOuterSpace | web/app.js:340 | the trimmed text is a slice of the input with only whitespace cut off before and after it |
| Text.Lower | web/app.js:349 | lower-casing keeps the length and maps each character on its own |
| Text.LowerAppend | web/app.js:191 | lower-casing distributes over concatenation |
| Text.JoinSplit | web/app.js:345 | joining the split parts with the separator gives back the text |
| Text.NonEmpty | web/app.js:360 | `filter(Boolean)` keeps exactly the non-empty parts |
| Text.StrLeqTotal | web/app.js:382-385 | the string order is total |
| Text.StrLeqAntisymmetric | web/app.js:382-385 | the string order is antisymmetric |
| Text.StrLeqTransitive | web/app.js:382-385 | the string order is transitive |
| Text.FoldLeqTotalPreorder | web/app.js:540 | the case-insensitive order is total and transitive |
| Sorting.SortBy | web/app.js:378-387 | the sort returns a permutation of its input |
| Sorting.SortBySorted | web/app.js:378-387 | under a total preorder, the sort's result is ordered |
| Dates.DaysInMonth | web/app.js:478-482 | month lengths are 28 to 31; 29 only for February of a leap year |
| Dates.NextDay | web/app.js:478-482 | the next day is a valid date after the given one |
| Dates.PrevDay | web/app.js:478-482 | the previous day is a valid date before the given one |
| Dates.NoDayBetween | web/app.js:478-482 | no date lies strictly between a day and the next one |
| Dates.NextPrevInverse | web/app.js:478-482 | the next day and the previous day undo each other |
| Dates.AddDays | web/app.js:478-482 | adding days gives a valid date, later for a positive amount, earlier for a negative one, the same for zero |
| Dates.AddOneDay | web/app.js:478-482 | adding one day is the next day |
| Dates.AddDaysInMonth | web/app.js:478-482 | adding days within the month only raises the day |
| Dates.AddDaysCompose | web/app.js:478-482 | adding a days then b days is adding a + b days |
| Dates.MakeFullYear | web/app.js:407 | `Date.UTC` maps years 0 to 99 to 1900 to 1999 and leaves other years alone |
| Dates.UtcDate | web/app.js:405-408 | `Date.UTC(year, month - 1, day)` always yields a valid date |
| Dates.UtcDateOfValid | web/app.js:405-408 | for a valid date with a year of at least 100, `Date.UTC` returns that date |
| Dates.UtcDateRollsOver | web/app.js:405-408 | 31.02.2025 rolls over to 3 March 2025 |
| Dates.ToIsoDate | web/app.js:470-472 | the ISO date has ten characters |
| Dates.IsoDateFourDigitYear | web/app.js:470-472 | for years up to 9999 the ISO date is `YYYY-MM-DD` with zero-padded fields |
| Dates.IsoDateDropsDayAfter9999 | web/app.js:470-472 | after year 9999, `slice(0, 10)` cuts off the day: two different days give the same text |
| Dates.RemoveAll | web/app.js:484-486 | removing a character leaves none of it and changes nothing when it is absent |
| Dates.RemoveAllAppend | web/app.js:484-486 | removing a character distributes over concatenation |
| Dates.ToBasicDate | web/app.js:484-486 | the basic date holds no hyphen, is no longer than the ISO text, and is the ISO text itself when that holds no hyphen |
| Dates.BasicDateRoundTrip | web/app.js:484-486 | the `YYYYMMDD` form of a date's ISO text parses back to that date |
| DateRange.DigitRun | web/app.js:2 | a digit run is as long as the pattern allows and stops at a non-digit |
| DateRange.MatchAt | web/app.js:2 | a match spans at least eight characters of the text, and its numbers fit two, two and four digits |
| DateRange.MatchAtIffRegex | web/app.js:2 | the regex matches at an index exactly when the pattern `\d{1,2}\.\d{1,2}\.\d{4}` can be read there |
| DateRange.MatchAtSound | web/app.js:2 | a match found at an index is a reading of the pattern there |
| DateRange.MatchAtRegex | web/app.js:2 | any reading of the pattern at an index, one- or two-digit day and month alike, is the match found there, with its numbers and its end |
| DateRange.RegexAtGreedy | web/app.js:2 | a reading of the pattern takes the longest digit runs, because a shorter day or month would need a `.` where a digit stands |
| DateRange.RegexAtUnique | web/app.js:2 | at one index the pattern has at most one reading |
| DateRange.MatchesFrom | web/app.js:393 | every match takes at least eight characters of what is left |
| DateRange.DateMatches | web/app.js:393 | a text has at most one match per eight characters |
| DateRange.MatchesFromSkips | web/app.js:393 | the scan passes over indices where nothing matches |
| DateRange.MatchesFromLeftmost | web/app.js:393 | the next match is the leftmost one, and the scan resumes where it ends, so matches do not overlap |
| DateRange.MatchesFromNone | web/app.js:393 | with no match left in the text, the scan finds nothing |
| DateRange.MatchesFromElements | web/app.js:393 | every match found is a reading of the pattern in the text, with that reading's numbers |
| DateRange.ShortDateMatches | web/app.js:2 | `1.3.2025` is matched as 1 March 2025 |
| DateRange.ShortDateScenario | web/app.js:392-403 | `1.3.2025` gives the range 2025-03-01 to 2025-03-02 |
| DateRange.PartsToDate | web/app.js:405-408 | a matched date always becomes a valid calendar date |
| DateRange.ParseDateRange | web/app.js:392-403 | `null` exactly when nothing matches; otherwise the start is the ISO text of the first match and the exclusive end the ISO text of the day after the second match, or after the first when it is alone |
| DateRange.ParseDateRangeCases | web/app.js:392-403 | no match gives no range; one match gives that day and the next; two or more give the first date and the day after the second |
| DateRange.RangeNonEmptyUnlessReversed | web/app.js:392-403 | the range has start before end exactly when there is one match or the second date is not before the first |
| DateRange.MatchAtGermanDate | web/app.js:2 | `DD.MM.YYYY` text at a position is matched there |
| DateRange.SingleDateMatches | web/app.js:393 | a single German date yields exactly that match |
| DateRange.TwoDatesMatch | web/app.js:393 | `A - B` yields the matches A and B |
| DateRange.SingleDayScenario | web/app.js:392-403 | "01.03.2025" parses to 2025-03-01 up to 2025-03-02 |
| DateRange.TwoDayScenario | web/app.js:392-403 | "01.03.2025 - 03.03.2025" parses to 2025-03-01 up to 2025-03-04 |
| Fnv.Utf16Char | web/app.js:515 | a character is one code unit below U+10000 and two otherwise |
| Fnv.Utf16Append | web/app.js:514-517 | code units of a concatenation are the concatenated code units |
| Fnv.Utf16Length | web/app.js:498 | the code-unit length is between the character count and twice it |
| Fnv.Utf16CharDecodes | web/app.js:515 | the code units of a character decode back to it, a pair being a high then a low surrogate |
| Fnv.Utf16OfBmp | web/app.js:515 | for characters below U+10000 the code units are the characters |
| Fnv.XorZero | web/app.js:515 | xor with zero is the identity |
| Fnv.XorCancels | web/app.js:515 | xor with the same value twice gives back the value |
| Fnv.FnvStep | web/app.js:515-516 | each hash step stays within 32 bits |
| Fnv.Fnv1a | web/app.js:512-518 | the hash is a 32-bit value, and the offset basis 2166136261 for an empty text |
| Fnv.ToHex | web/app.js:518 | the hexadecimal text is non-empty and made of hex digits |
| Fnv.HexValueToHex | web/app.js:518 | the hexadecimal text reads back as the number |
| Fnv.ToHexLength | web/app.js:518 | a number below 16^k has at most k hex digits |
| Fnv.PadStart | web/app.js:518 | padding keeps the text at the end and fills the front with the fill character |
| Fnv.PaddedHexValue | web/app.js:518 | zero padding keeps the hex value |
| Fnv.Fingerprint | web/app.js:512-519 | the id is eight hex digits |
| Fnv.FingerprintValue | web/app.js:512-519 | the id reads as the FNV-1a hash of the text's UTF-16 code units |
| Fnv.HashHex | web/app.js:512-519 | the loop computes the fingerprint |
| Events.TitleFormatOf | web/app.js:419 | only "event_only" selects the title-only format |
| Events.Summary | web/app.js:418-428 | the summary is the title exactly when the format is title-only, the sport is empty, or the sport is an exception; otherwise it is `sport - title` |
| Events.BuildSummary | web/app.js:418-428 | an event's summary is its title exactly when the title-only rule applies; otherwise it is `sport - title` |
| Events.RowKey | web/app.js:361 | when no field holds the pipe character, splitting the key at pipes gives back the five fields |
| Events.SplitJoin | web/app.js:361 | splitting joined parts that hold no separator gives back the parts |
| Events.RowKeyInjective | web/app.js:361-366 | when no field holds the pipe character, equal keys mean equal fields |
| Events.RowKeyAmbiguous | web/app.js:361-366 | a pipe character moved between title and sport gives different rows with the same key |
| Events.KeysLeqTotal | web/app.js:381-386 | the lexicographic order of the sort keys is total |
| Events.KeysLeqTransitive | web/app.js:381-386 | the lexicographic order of the sort keys is transitive |
| Events.SortKey | web/app.js:379-385 | the event order compares four keys |
| Events.EventOrderTotalPreorder | web/app.js:378-387 | the event comparator is a total preorder |
| Events.SortEvents | web/app.js:378-387 | the sorted list holds the same events, each as many times |
| Events.SortEventsSpec | web/app.js:378-387 | sorted events are ordered by start, end, summary and location and are a permutation of the input |
| Events.SportsOf | web/app.js:88 | the sports are taken from the events in order |
| Events.DistinctNames | web/app.js:88 | each non-empty name occurs once and nothing else occurs |
| Events.AvailableSports | web/app.js:88-90 | the sports list holds each non-empty name once and the empty name never |
| Events.AvailableSportsSpec | web/app.js:88-90 | the sports list holds each non-empty sport once and is sorted case-insensitively |
| TsvLoader.DropCr | web/app.js:339 | a trailing carriage return is dropped |
| TsvLoader.SplitLines | web/app.js:339 | one line per `\n` split, none holding a newline |
| TsvLoader.Columns | web/app.js:345 | one trimmed column per tab-separated field, none holding a tab |
| TsvLoader.Location | web/app.js:360 | the location is trimmed and empty exactly when all extra columns are empty |
| TsvLoader.ParseLine | web/app.js:340-361 | a row's title, sport and location are trimmed and hold no tab |
| TsvLoader.ParseLineKeeps | web/app.js:340-361 | a line gives a row exactly when it is not blank, not a `###` comment, has three columns, is not the header and has a date; the row's fields are those columns |
| TsvLoader.DedupKeys | web/app.js:363-366 | de-duplication keeps every key |
| TsvLoader.Dedup | web/app.js:363-366 | de-duplication never makes the list longer |
| TsvLoader.DedupDistinct | web/app.js:363-366 | the kept rows have pairwise different keys |
| TsvLoader.DedupFirstWins | web/app.js:363-366 | every kept row is the first row with its key |
| TsvLoader.ToEvent | web/app.js:368-375 | an event's key is its row's key |
| TsvLoader.ToEvents | web/app.js:368-375 | one event per row, in order |
| TsvLoader.LoadEventsFromTsv | web/app.js:329-390 | the loader returns the sorted events of the first row of each key |
| TsvLoader.KeepFirstRows | web/app.js:336-376 | the loop keeps the first parsed row of each key, in line order |
| TsvLoader.LoadedEvents | web/app.js:329-390 | there are no more events than lines, and they are the kept rows' events, each as many times |
| TsvLoader.LoadedEventsOrdered | web/app.js:378-387 | the loaded events are in the event order and are a permutation of the kept rows' events |
| TsvLoader.LoadedEventsDistinct | web/app.js:363-366 | the loaded events have pairwise different keys |
| TsvLoader.LoadedEventsMembers | web/app.js:329-390 | an event is loaded exactly when it comes from a kept row |
| TsvLoader.LoadedEventsKeys | web/app.js:329-390 | the loaded events' keys are the keys of all parsed rows |
| TsvLoader.LoadedEventsIds | web/app.js:369 | each loaded event's id is the fingerprint of its key |
| Ics.ReplaceAll | web/app.js:488-494 | a replaced character is gone when the replacement does not hold it |
| Ics.EscapeText | web/app.js:488-494 | the escaped text holds no line feed; a text without backslash, semicolon, comma or line feed is left as it is |
| Ics.EscapeChar | web/app.js:488-494 | an escaped character is itself or a backslash pair |
| Ics.EscapeTextEach | web/app.js:488-494 | the four chained replacements equal escaping character by character |
| Ics.UnescapeEscape | web/app.js:488-494 | unescaping the escaped text gives back the text |
| Ics.EscapedText | web/app.js:488-494 | escaped text holds no newline, and every `;` or `,` follows a backslash |
| Ics.FoldSpec | web/app.js:496-510 | every line gives at least one piece |
| Ics.FoldShape | web/app.js:496-510 | pieces have at most 75 code units, continuations start with a space, a short line stays whole, a long line's first piece is its first 75 units |
| Ics.UnfoldFold | web/app.js:496-510 | dropping the continuation spaces and joining the pieces gives back the line |
| Ics.FoldLine | web/app.js:496-510 | the loop computes the folded pieces |
| Ics.FoldShortLine | web/app.js:498-500 | a line of at most 37 characters is not folded |
| Ics.ContentLine | web/app.js:447 | a content line is the name, a colon, and the value |
| Ics.Uid | web/app.js:452-455 | the UID is eight hexadecimal digits followed by `@sportkalender-web` |
| Ics.PropertyLines | web/app.js:455-459 | an event has five property lines, none beginning with B, E or L |
| Ics.LocationLines | web/app.js:460-462 | a LOCATION line is there exactly when the event has a location |
| Ics.EventBlocks | web/app.js:450-464 | one block per event, in order |
| Ics.CreateIcs | web/app.js:430-468 | the method computes the header, the sorted events' blocks and the closing line, folded and joined with CRLF |
| Ics.PushBlocks | web/app.js:450-464 | pushing the blocks appends them in order |
| Ics.FoldLines | web/app.js:467 | the loop folds every line in order |
| Ics.BlockOpensOnce | web/app.js:454-463 | an event's block holds one `BEGIN:VEVENT` line |
| Ics.OneBlockPerEvent | web/app.js:430-468 | the calendar holds one `BEGIN:VEVENT` line per event |
| Ics.HeaderNeverOpens | web/app.js:442-448 | the header holds no `BEGIN:VEVENT` |
| Ics.BlockLocation | web/app.js:460-462 | a block has a LOCATION line exactly when the event has a location |
| Ics.BlockDates | web/app.js:457-458 | the block's DTSTART and DTEND are the basic forms of the event's dates |
| Ics.BlockSummary | web/app.js:459 | the SUMMARY line holds the escaped summary, which unescapes to the summary |
| Ics.IcsTextFrame | web/app.js:442-467 | the text starts with `BEGIN:VCALENDAR` CRLF and ends with `END:VCALENDAR` CRLF |
| Ics.IcsText | web/app.js:430-468 | the calendar text ends with CRLF |
| Categories.CategoryOrder | web/app.js:532 | the table's category names then "And More", all different |
| Categories.CategoryOrderNames | web/app.js:532 | the order lists the table's names in table order |
| Categories.CollapseSpaces | web/app.js:557 | whitespace runs become one space, and nothing else changes |
| Categories.NormalizeSportKey | web/app.js:551-559 | the key is lower case, trimmed and single-spaced |
| Categories.NormalizeNormalKey | web/app.js:551-559 | a normal key is its own key |
| Categories.NormalizeIdempotent | web/app.js:551-559 | normalising twice is normalising once |
| Categories.NormalizeIgnoresCase | web/app.js:551-559 | letter case does not change the key |
| Categories.LastListing | web/app.js:49-51 | the last category that lists a key, if any; in the map built from the table, later entries overwrite earlier ones |
| Categories.ResolveCategory | web/app.js:547-549 | a sport's category is one of the ordered categories |
| Categories.ResolveCategorySpec | web/app.js:547-549 | "And More" exactly when no category lists the key, else the last category that lists it |
| Categories.ResolveIgnoresCase | web/app.js:547-549 | letter case does not change a sport's category |
| Categories.Bucket | web/app.js:524-530 | a category's bucket holds only sports of the list in that category |
| Categories.CollectBuckets | web/app.js:522-530 | the map has an entry exactly for the categories with sports, holding those sports in list order |
| Categories.GroupSportsByCategory | web/app.js:521-545 | the method computes the groups in category order |
| Categories.Grouped | web/app.js:521-545 | there is at most one group per category of the order, and each group belongs to a category of the order |
| Categories.BucketCount | web/app.js:524-530 | a bucket holds each sport of its category as often as the list does |
| Categories.GroupedPartition | web/app.js:521-545 | the groups hold every sport exactly as often as the list does |
| Categories.GroupedWellFormed | web/app.js:532-544 | groups are non-empty, sorted case-insensitively, hold only their category's sports, and follow the category order with no category twice |
| Selection.Filter | web/app.js:186 | filtering keeps exactly the elements that pass |
| Selection.FilterCounts | web/app.js:186 | filtering keeps each passing element as many times as it occurs, and drops every other |
| Selection.FilterSubsequence | web/app.js:186 | filtering keeps the order |
| Selection.Ids | web/app.js:92-94 | the ids are exactly those of the events |
| Selection.IdsOfSports | web/app.js:561-565 | the ids are exactly those of the events whose sport is selected |
| Selection.Matches | web/app.js:186-193 | an empty query matches every event; a matching query is no longer than the searched text |
| Selection.FilterVisible | web/app.js:184-194 | an event is visible exactly when it matches the query |
| Selection.FilterVisibleCounts | web/app.js:184-194 | each matching event is visible as many times as it is loaded, and no other event is |
| Selection.FilterVisibleSpec | web/app.js:184-194 | the visible events keep the loaded order, and all are visible for an empty query |
| Selection.SportSet | web/app.js:321 | the non-empty sports of the events |
| Selection.SummaryOf | web/app.js:319-327 | the selected events are those whose id is selected, each as many times as it is loaded; the counts are the number of events and of distinct sports |
| Selection.SummaryOrder | web/app.js:320 | the selected events keep the loaded order |
| Selection.CalendarName | web/app.js:304 | the trimmed input when it is not blank, else a non-empty default |
| Selection.ListedSports | web/app.js:88-91 | the sports list holds exactly the events' non-empty sports |
| Selection.SelectAllIds | web/app.js:113-118 | selecting all sports selects the events of every non-empty sport |
| Selection.NoSportsNoIds | web/app.js:120-125 | selecting no sports selects no event |
| Selection.AddIds | web/app.js:92-94 | the loop adds every event's id to the set |
| Selection.RemoveIds | web/app.js:171-177 | the loop removes every event's id from the set |
| Selection.BootFromText | web/app.js:86-100 | boot loads the events, selects every sport and every event, and shows all |
| Selection.AppState.Boot | web/app.js:86-100 | the state after loading: sorted sports, all sports and events selected, empty query, all visible |
| Selection.AppState.ApplyFilters | web/app.js:184-197 | the visible events are the query's matches; nothing else changes |
| Selection.AppState.SyncEventChecksToSportsSelection | web/app.js:561-565 | the selected ids become those of the events of the selected sports |
| Selection.AppState.SetQuery | web/app.js:103-106 | the query becomes the trimmed, lower-cased input and the visible events follow it |
| Selection.AppState.SetTitleFormat | web/app.js:108-111 | only the title format changes |
| Selection.AppState.SelectAllSports | web/app.js:113-118 | every listed sport is selected, and so are the events of the selected sports |
| Selection.AppState.SelectNoSports | web/app.js:120-125 | no sport and no event is selected |
| Selection.AppState.ToggleSport | web/app.js:127-144 | a sport is added or removed and the event selection follows; an empty sport changes nothing |
| Selection.AppState.ToggleEvent | web/app.js:146-161 | an id is added or removed; an empty id changes nothing |
| Selection.AppState.SelectVisible | web/app.js:163-169 | the visible events' ids are added to the selection |
| Selection.AppState.ClearVisible | web/app.js:171-177 | the visible events' ids are removed from the selection |
| Selection.AppState.CurrentSummary | web/app.js:319-327 | the events whose id is selected, each as many times as it is loaded, their number, and the number of their distinct sports |
| Selection.AppState.Export | web/app.js:297-317 | fails exactly when nothing is selected; otherwise gives the calendar text of the selected events under the calendar name |
| PyCore.EventSummary | sportkalender/core.py:23-29 | the title when the sport is empty or an exception, else `sport - title` |
| PyCore.EventSummaryAgrees | sportkalender/core.py:23-29 | the Python summary equals the page's summary in the sport-and-event format |
| PyCore.ReplaceNbsp | sportkalender/core.py:33 | each no-break space becomes a space, and nothing else changes |
| PyCore.StrpDate | sportkalender/core.py:38-40 | `strptime` succeeds exactly for a valid date with year 1 or later, and raises `ValueError` otherwise |
| PyCore.PlusOneDay | sportkalender/core.py:44 | adding a day gives the next day, and raises `OverflowError` exactly on 9999-12-31 |
| PyCore.ParseDateRange | sportkalender/core.py:32-44 | `None` exactly when nothing matches; a range's two dates are valid days, the first from year 1 on |
| PyCore.RangeOfMatchesCases | sportkalender/core.py:32-44 | no match gives `None`; an invalid first or second date raises; otherwise the range runs from the first date to the day after the second match, or after the first when it is alone; a second date of 9999-12-31 raises `OverflowError` |
| PyCore.RangeAgreesWithBrowser | sportkalender/core.py:32-44 | on valid dates from year 100 that do not overflow, the Python range equals the page's |
| PyCore.February31Raises | sportkalender/core.py:38 | 31.02.2025 raises `ValueError` in Python |
| PyCore.February31RollsOver | web/app.js:405-408 | 31.02.2025 rolls over to 3 March on the page |
| PyCore.RangeNonEmptyUnlessReversed | sportkalender/core.py:39-44 | start is before end exactly for one match or a second date not before the first |
| PyCore.DropBom | sportkalender/core.py:57 | `utf-8-sig` drops one leading byte-order mark |
| PyCore.UniversalNewlines | sportkalender/core.py:57-58 | text-mode reading leaves no carriage return |
| PyCore.Lines | sportkalender/core.py:58-59 | the lines hold no line terminator |
| PyCore.NormalizedFilters | sportkalender/core.py:50-52 | the filter set holds exactly the case-folded, stripped, non-blank entries |
| PyCore.BlankFiltersAdmitAll | sportkalender/core.py:50-52 | a filter of blank entries only admits every sport |
| PyCore.FilterAdmits | sportkalender/core.py:78-79 | a non-blank filter admits exactly the sports that case-fold to one of its entries |
| PyCore.ParseRow | sportkalender/core.py:59-94 | a line that is not a data line gives nothing; a line that gives an event has a sport the filter admits |
| PyCore.ParseRowFails | sportkalender/core.py:59-72 | a line raises exactly when it is a data line whose date column raises |
| PyCore.ParseRowKeeps | sportkalender/core.py:59-79 | a line yields an event exactly when it is a data line with a date that the filter admits |
| PyCore.ParseRowFields | sportkalender/core.py:72-94 | a kept line's event has the parsed dates, the title and sport columns, and the non-empty rest joined by spaces |
| PyCore.KeyLeqTotalPreorder | sportkalender/core.py:96-103 | the sort key order is a total preorder |
| PyCore.FailureEndsLoad | sportkalender/core.py:58-94 | an exception stops the load: later lines do not matter |
| PyCore.KeptEvents | sportkalender/core.py:58-94 | the loop keeps no more events than there are lines |
| PyCore.LoadedEvents | sportkalender/core.py:47-104 | the load raises exactly when the loop raises; otherwise it gives no more events than there are lines |
| PyCore.LoadEventsFromTsv | sportkalender/core.py:47-104 | the loop computes the loaded events or the exception |
| PyCore.KeptEventsSpec | sportkalender/core.py:78-84 | the kept events are pairwise different and admitted by the filter |
| PyCore.LoadedEventsSpec | sportkalender/core.py:81-104 | the result is sorted by the key, a permutation of the kept events, pairwise different, and admitted by the filter |
| PyCore.AvailableSports | sportkalender/core.py:107-108 | the list holds no empty sport and no sport twice |
| PyCore.AvailableSportsSpec | sportkalender/core.py:107-108 | each non-empty sport once, nothing else, sorted case-insensitively |

## Left out

- Page rendering: the DOM, `renderSports`, `renderEvents`, `renderStats` and `formatDateRange` only display state.
- `fetch`, `Blob` and the download link are I/O. The loaders take the file's text as a parameter.
- Python's `write_ics`, `cli.py` and `scripts/fetch_wikipedia_tables.py` are not part of this model.
- `localeCompare(..., { sensitivity: "base" })` and `str.casefold` are modelled as ASCII lower-casing plus code-point order. The locale's collation tables are outside the model.
- `toLocaleLowerCase` is modelled as ASCII lower-casing.
- Categories.NormalizeSportKey: does not model the NFD decomposition and diacritic stripping, nor the `"ÃŸ"` to `"ss"` replacement (web/app.js:554-556). These need Unicode tables, so a key keeps its accents.
- Python's `\d` matches every Unicode decimal digit. The model matches ASCII digits only.
- Python's `strip` and JavaScript's `trim` use the whitespace sets written out in `Text.IsPySpace` and `Text.IsJsSpace`.
- Sorting.SortBy: is an insertion sort on values. It is proved ordered and a permutation; its stability is not proved, and it does not sort an array in place as `Array.prototype.sort` and `list.sort` do.
- Ics.PushBlocks: takes the event blocks already built. Each block's content is stated by `Ics.EventLines`.
- Selection.AppState.Boot: takes the loaded events, not the URL; `Selection.BootFromText` composes it with the loader.
- PyCore.AvailableSports: sorts the set's elements by case-folded key. The order of two distinct sports that case-fold alike comes from Python's set iteration, which is not modelled.
- PyCore.Lines: models text-mode line reading with the terminator already removed. Line contents are what `strip` sees either way.
- PyCore.ReplaceNbsp: the no-break-space replacement is modelled, but no lemma relates the matches with and without it.
