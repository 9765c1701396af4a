# Calendar work report: a Dafny model

The script reads the entries of one calendar over a time range and keeps the
ones whose colour marks them as work. It cleans each entry's HTML description
and measures its length in hours. It then builds one of two HTML reports:

- **Detailed ("robust").** The events are stably sorted by start time. A
  grand-total row opens the report. Then comes one section per day: a date row
  and a column header, one numbered row per event, and the day's subtotal.
  A divider separates consecutive days.
- **Minimal.** A dictionary maps each day to its hours. The report shows the
  total, a header, and one row per day in calendar order. To order the days, the
  sort rewrites "dd.MM.yyyy" as "yyyy-MM-dd" and compares the dates that parse
  from it.

The model has the following modules:

| module | contents |
|---|---|
| `Wrappers` | `Option` |
| `Seqs` | small facts about sequences shared by the proofs |
| `Text` | digits, zero padding, and JavaScript's `split` and `join` |
| `Calendar` | days, the "dd.MM.yyyy" key, and the comparator's "yyyy-MM-dd" date parsing |
| `Sorting` | the stable sort and its uniqueness |
| `Description` | the chain of case-insensitive global regex replacements |
| `Events` | the colour filter, durations, and sums per day |
| `Report` | report rows, and rendering line breaks as `<br>` |
| `Detailed` | the robust report: a specification function and the one-pass scan as a method with loop invariants |
| `Summary` | the minimal report: the dictionary filled in a loop, the sorted days and the total |
| `Agreement` | the two modes agree |
| `Pipeline` | calendar lookup, filtering, and dispatch on the report mode |

Modelling choices:

- Instants are integer milliseconds.
- A duration is the exact rational `(end - start) / 3600000` in hours. Sums of exact values make the stated equalities (subtotals adding up to the total, say) exact.
- The time-zone library that maps an instant to a calendar day is a parameter, `dayOf: int -> Day`. The lemmas that relate day sections to sorted events require it to be monotone.
- A report is modelled as its sequence of `Row` values. The fixed markup around each row is not modelled.
- The one transformation a row applies to event data is modelled as the description cell `Report.BrLines`: newlines in a description are shown as `<br>`. The rows themselves carry the event, not its rendered cells.
- The tag patterns match case-insensitively by folding ASCII letters. All the patterns are ASCII, and a case-insensitive JavaScript pattern without the Unicode flag never folds a non-ASCII character onto an ASCII letter, so this is exact. `\s` is JavaScript's full white-space and line-terminator set.

## Model

| member | source | states |
|---|---|---|
| Pipeline.ReportRows | calendar-work-report-generator.js:26-29 | the rows of the minimal report when the mode is exactly "minimal", and of the detailed report for any other mode; ReportTotal and IgnoresOtherColours state what either mode shows |
| Pipeline.CalendarByName | calendar-work-report-generator.js:39-46 | gives no calendar exactly when none carries the name, and otherwise the first one |
| Pipeline.SummarizeWorkEvents | calendar-work-report-generator.js:20-29 | builds nothing exactly when the calendar is missing; otherwise gives the report of the filtered events, minimal for mode "minimal" and detailed for every other mode |
| Pipeline.ReportTotal | calendar-work-report-generator.js:26-29 | in either mode the first row holds the total hours of the calendar's work events |
| Pipeline.IgnoresOtherColours | calendar-work-report-generator.js:56-59 | an entry whose colour is not a key of the colour map, at any position among the entries, changes neither report |
| Pipeline.FilterSkips | calendar-work-report-generator.js:59 | the filter drops an entry whose colour is not listed |
| Events.Normalize | calendar-work-report-generator.js:60-66 | keeps the title and both times, cleans the description and gives the duration in hours; its meaning is stated by Hours, CleanHtmlDescription and FilterSelected |
| Events.Hours | calendar-work-report-generator.js:65 | the duration times 3600000 is the length in milliseconds; it is negative exactly when the entry ends before it starts, so nothing is rejected |
| Events.FilterEvents | calendar-work-report-generator.js:56-67 | keeps at most as many events as there are entries |
| Events.Selected | calendar-work-report-generator.js:59 | the kept positions ascend, and a position is kept if and only if its entry's colour is a key of the map |
| Events.FilterSelected | calendar-work-report-generator.js:58-66 | the filter's output is, in order, the normalized entries at exactly the kept positions |
| Events.FilterKeepsAll | calendar-work-report-generator.js:58-66 | when every colour is listed, the output normalizes each entry in place |
| Events.FilterAppend | calendar-work-report-generator.js:58-66 | filtering distributes over concatenation of the entry list |
| Events.Total | calendar-work-report-generator.js:80 | the durations added up from zero in order, as both reductions do; TotalAppend, TotalPermutation and TotalByDays state what the sum means |
| Events.TotalAppend | calendar-work-report-generator.js:80 | the sum of durations of two concatenated lists is the sum of their sums |
| Events.TotalPermutation | calendar-work-report-generator.js:77-80 | reordering events does not change their total |
| Events.OnDayCount | calendar-work-report-generator.js:132-135 | a day's events hold each event as often as the input does when it starts that day, and otherwise not at all |
| Events.OnDayMembers | calendar-work-report-generator.js:132-135 | an event belongs to a day's events if and only if it is an input event starting on that day |
| Events.OnDayPermutation | calendar-work-report-generator.js:132-135 | a day's events, and so its hours, do not depend on the input order |
| Events.DayKey | calendar-work-report-generator.js:86 | an event's "dd.MM.yyyy" key, the formatted day its start falls on; FormatDay gives its shape and FormatDayInjective shows it identifies the day |
| Events.DayKeys | calendar-work-report-generator.js:134-137 | the dictionary's keys in insertion order hold no repeats and are no more than the events |
| Events.DayKeysMembers | calendar-work-report-generator.js:132-137 | a day is a key if and only if some event starts on it |
| Events.AbsentDay | calendar-work-report-generator.js:134 | a day that is not yet a key has no events and zero hours, the default the update starts from |
| Events.TotalByDays | calendar-work-report-generator.js:141 | the hours of all keys add up to the total of all events |
| Events.SumDaysAppendEvent | calendar-work-report-generator.js:134 | a new event adds its duration to the hours of distinct keys exactly when its day is among them |
| Events.NewDayTotal | calendar-work-report-generator.js:134 | an event on a new day appends that day to the keys and adds its duration to their hours |
| Calendar.OrdinalOrder | calendar-work-report-generator.js:138 | the number that stands for a parsed date orders days chronologically and identifies them |
| Calendar.FormatDay | calendar-work-report-generator.js:86 | a day key has ten characters, dots at positions 2 and 5, and digits elsewhere |
| Calendar.FormatDayInjective | calendar-work-report-generator.js:133 | distinct days have distinct keys |
| Calendar.ParseIsoDate | calendar-work-report-generator.js:138 | a date that parses has a four-digit year, a month from 1 to 12 and a day from 1 to 31 |
| Calendar.ParseNatBound | calendar-work-report-generator.js:138 | a string of w digits parses below 10^w |
| Calendar.IsoKey | calendar-work-report-generator.js:138 | the comparator's rewriting of a key, split at '.', reversed and joined with '-'; IsoKeyOfFormatDay shows a day key becomes that day's "yyyy-MM-dd" |
| Calendar.IsoKeyOfFormatDay | calendar-work-report-generator.js:138 | splitting "dd.MM.yyyy" at '.', reversing and joining with '-' gives that day's "yyyy-MM-dd" |
| Calendar.ParseFormatIso | calendar-work-report-generator.js:138 | "yyyy-MM-dd" of a day parses back to that day |
| Calendar.SortKey | calendar-work-report-generator.js:137-139 | the number the comparator sorts a key by, the parsed date's chronological number, or -1 when the rewritten key does not parse; SortKeyOfFormatDay and SortKeyOrder say what it gives for day keys |
| Calendar.SortKeyOfFormatDay | calendar-work-report-generator.js:137-139 | the comparator's key of a day key is that day's chronological number, never the invalid-date case |
| Calendar.SortKeyOrder | calendar-work-report-generator.js:137-139 | the comparator puts one day key before another if and only if its day is earlier, and ties only equal days |
| Text.ParsePad | calendar-work-report-generator.js:138 | parsing a zero-padded number that fits its width gives the number back |
| Text.PadInjective | calendar-work-report-generator.js:86 | zero padding to a width the numbers fit in keeps distinct numbers distinct |
| Text.Split | calendar-work-report-generator.js:138 | a split yields at least one part |
| Text.Reverse | calendar-work-report-generator.js:138 | reversing moves position i to position n-1-i |
| Text.Join | calendar-work-report-generator.js:138 | the parts with the separator between each pair; JoinSplit, SplitJoin and JoinThree relate it to Split |
| Text.JoinSplit | calendar-work-report-generator.js:138 | joining the parts of a split with the same separator restores the string |
| Text.SplitJoin | calendar-work-report-generator.js:138 | splitting a join of separator-free parts gives the parts back |
| Text.SplitNoSeparator | calendar-work-report-generator.js:138 | a string without the separator splits into itself alone |
| Text.SplitAtSeparator | calendar-work-report-generator.js:138 | a split cuts at the first separator |
| Text.SplitThree | calendar-work-report-generator.js:138 | three separator-free fields joined by the separator split back into those three |
| Text.JoinThree | calendar-work-report-generator.js:138 | joining three parts puts the separator between each pair |
| Sorting.Insert | calendar-work-report-generator.js:77 | insertion adds exactly the one element |
| Sorting.StableSort | calendar-work-report-generator.js:77 | the result is a permutation of the input, ascending by key, and keeps the input order among equal keys |
| Sorting.InsertSorted | calendar-work-report-generator.js:77 | inserting into a sorted sequence keeps it sorted |
| Sorting.InsertWithKey | calendar-work-report-generator.js:77 | insertion puts the element first among the elements of its key |
| Sorting.SortedUnique | calendar-work-report-generator.js:77 | two sorted sequences with the same elements in the same order per key are equal |
| Sorting.StableSortIsUnique | calendar-work-report-generator.js:77 | any sorted sequence with the input's per-key order is the stable sort, so the sorting algorithm does not matter |
| Sorting.StrictlySortedUnique | calendar-work-report-generator.js:137-139 | two strictly ascending sequences with the same members are equal |
| Sorting.DistinctCount | calendar-work-report-generator.js:137 | no element occurs twice in a sequence without repeats |
| Sorting.MultisetDistinct | calendar-work-report-generator.js:137-139 | a permutation of a sequence without repeats has none |
| Sorting.SortedDistinctStrict | calendar-work-report-generator.js:137-139 | a sorted sequence without repeats whose key is injective on it ascends strictly |
| Sorting.StrictlySortedDistinct | calendar-work-report-generator.js:137-139 | a strictly ascending sequence has no repeats |
| Summary.SortDays | calendar-work-report-generator.js:137-139 | sorting keeps exactly the keys |
| Summary.SummaryRows | calendar-work-report-generator.js:128-153 | the minimal report: the total row, the header row, then one row per day in date order; SummaryTotalIsSumOfDays, SummaryChronological, SummaryOfNoEvents and SummaryOrderIndependent state its properties |
| Summary.DayRows | calendar-work-report-generator.js:147-149 | one row per listed day, in the listed order, holding that day's hours |
| Summary.GenerateMinimalReport | calendar-work-report-generator.js:128-153 | the method's rows are the minimal report: the total, the header, and the sorted days with their hours |
| Summary.CollectDays | calendar-work-report-generator.js:130-135 | after the loop the dictionary's keys are the days of the events in first-seen order, and each holds exactly that day's hours whatever the input order |
| Summary.CollectEvent | calendar-work-report-generator.js:133-134 | one dictionary update keeps the keys and values those of the events seen so far |
| Summary.CollectStep | calendar-work-report-generator.js:134 | adding an event's hours to its day, or creating the day, keeps the dictionary in step with the events |
| Summary.CollectValue | calendar-work-report-generator.js:134 | after the update each key holds its hours over the events seen so far |
| Summary.DayTotalStep | calendar-work-report-generator.js:134 | a new event adds its duration to its own day's hours and to no other day's |
| Summary.AddValues | calendar-work-report-generator.js:141 | the loop adds up exactly the values of the keys |
| Summary.ValuesAreDays | calendar-work-report-generator.js:141 | when every value is its day's hours, the values add up to the hours of the days |
| Summary.SortKeyInjectiveOnDays | calendar-work-report-generator.js:137-139 | two keys the comparator ties are the same key |
| Summary.SortedDaysAscending | calendar-work-report-generator.js:137-139 | the listed days ascend strictly by date, each at most once, and they are exactly the days events start on |
| Summary.SummaryChronological | calendar-work-report-generator.js:137-149 | one event's day is listed before another's if and only if it is an earlier calendar day |
| Summary.SumDaysAppend | calendar-work-report-generator.js:141 | the hours of a concatenation of day lists add up |
| Summary.SumDaysPermutation | calendar-work-report-generator.js:141 | the hours of a list of days do not depend on its order |
| Summary.SummaryTotalIsSumOfDays | calendar-work-report-generator.js:141-148 | the hours shown per day add up to the total row |
| Summary.SummaryOfNoEvents | calendar-work-report-generator.js:143-151 | with no events the minimal report is a zero total and the header row |
| Summary.DayRowsAgree | calendar-work-report-generator.js:147-149 | the day rows depend on the events only through each day's hours |
| Summary.SummaryOrderIndependent | calendar-work-report-generator.js:130-149 | the minimal report does not depend on the order of the events |
| Detailed.DetailedRows | calendar-work-report-generator.js:75-120 | the detailed report: the total row of the start-sorted events, then their day sections; DetailedShowsSortedEvents, DetailedSubtotalsAddUp, DetailedDividers and DetailedOfNoEvents state its properties |
| Detailed.Group | calendar-work-report-generator.js:85-99 | there are no sections exactly when there are no events |
| Detailed.GroupIsRuns | calendar-work-report-generator.js:85-99 | the sections hold the events in order, each section is non-empty and one day, consecutive sections differ in day, and the last section is the last event's day |
| Detailed.GroupFlatten | calendar-work-report-generator.js:85-99 | the sections hold all the events, in order |
| Detailed.GroupRuns | calendar-work-report-generator.js:85-99 | each section is a maximal run of events of one day |
| Detailed.GroupLastDay | calendar-work-report-generator.js:93 | the last section is the last event's day |
| Detailed.GroupUnique | calendar-work-report-generator.js:85-99 | any division of the events into maximal same-day runs is the sectioning the scan makes |
| Detailed.EventRows | calendar-work-report-generator.js:101-111 | in a section, the k-th row is event k numbered k+1: numbering starts at 1 and goes up by one |
| Detailed.GenerateRobustReport | calendar-work-report-generator.js:75-120 | the scan emits exactly the detailed report: the total, then each day's section closed by its subtotal, with dividers between days |
| Detailed.ScanEvent | calendar-work-report-generator.js:86-111 | after each event the rows, the current day, the day's hours and the day's count are those of the sections so far |
| Detailed.FirstDay | calendar-work-report-generator.js:88-98 | the first event opens its day with no subtotal or divider before it, and the count and hours start at zero |
| Detailed.SameDay | calendar-work-report-generator.js:101-111 | an event of the current day is numbered one past the count and its hours join the day's |
| Detailed.NewDay | calendar-work-report-generator.js:88-98 | an event of a new day closes the previous day with its subtotal and a divider, then opens its own day with the counters reset |
| Detailed.LastSection | calendar-work-report-generator.js:114-116 | the subtotal after the loop closes the last day, and no divider follows it |
| Detailed.EventRowsShow | calendar-work-report-generator.js:101-111 | the event rows of a section show its events in order, and none is a subtotal |
| Detailed.SectionShows | calendar-work-report-generator.js:97-115 | a section shows exactly its day's events, and its one subtotal is their hours |
| Detailed.ClosedShows | calendar-work-report-generator.js:85-112 | the closed sections show their events in order, and their subtotals add up to their hours |
| Detailed.BodyShows | calendar-work-report-generator.js:85-116 | all sections together show all events in order, and their subtotals add up to all their hours |
| Detailed.DetailedShowsSortedEvents | calendar-work-report-generator.js:77-112 | the event rows show each input event exactly once, in the stable start-time order |
| Detailed.DetailedSubtotalsAddUp | calendar-work-report-generator.js:80-116 | the first row is the sum of all durations, and the day subtotals add up to it |
| Detailed.DetailedOfNoEvents | calendar-work-report-generator.js:78-118 | with no events the detailed report is just a zero total row |
| Detailed.SectionIsShaped | calendar-work-report-generator.js:97-115 | a section opens with its date row, closes with its subtotal and has no divider |
| Detailed.JoinSection | calendar-work-report-generator.js:89-97 | a section after closed sections puts every divider between a subtotal and a date row |
| Detailed.CloseSection | calendar-work-report-generator.js:90-91 | a divider after a subtotal keeps the shape |
| Detailed.ClosedIsShaped | calendar-work-report-generator.js:89-92 | in closed sections every divider follows a subtotal |
| Detailed.DetailedDividers | calendar-work-report-generator.js:88-116 | every divider sits between one day's subtotal and the next day's date row, every subtotal but the last row is followed by a divider, and the report ends with a subtotal when there are events |
| Detailed.SectionSubtotalLast | calendar-work-report-generator.js:97-115 | the only subtotal of a section is its last row |
| Detailed.ClosedSubtotals | calendar-work-report-generator.js:89-92 | in closed sections every subtotal is followed by a divider, and they end with one |
| Agreement.DetailedAgreesWithSummary | calendar-work-report-generator.js:75-153 | for a monotone day function, the detailed report's sections are the minimal report's days in the same order, and each subtotal is the minimal report's hours for that day |
| Agreement.SameDays | calendar-work-report-generator.js:77-139 | for a monotone day function, the sections of the sorted events are the minimal report's sorted days |
| Agreement.SectionDaysAppend | calendar-work-report-generator.js:85-115 | the day-and-hours rows of consecutive runs of sections are those of each run, in order |
| Agreement.SectionIsDay | calendar-work-report-generator.js:85-134 | for a monotone day function, each section holds all of its day's events, and its subtotal is that day's hours in the dictionary |
| Agreement.AscendingDistinct | calendar-work-report-generator.js:88-93 | sections whose days strictly ascend have distinct days, so each day has one section |
| Agreement.SameDayKeys | calendar-work-report-generator.js:77-137 | sorting the events does not change which days occur |
| Agreement.LaterDay | calendar-work-report-generator.js:77-86 | for a monotone day function, a later-starting event on another day has a later day key |
| Agreement.LaterDays | calendar-work-report-generator.js:77-86 | for a monotone day function, events sorted by start have day keys that ascend where they differ |
| Agreement.GroupDaysAscending | calendar-work-report-generator.js:85-99 | when the events' days ascend, the section days ascend strictly |
| Agreement.GroupDaysLast | calendar-work-report-generator.js:88-97 | an event extends the section days only when it starts a new day |
| Agreement.GroupDaysMembers | calendar-work-report-generator.js:85-99 | a day has a section if and only if some event starts on it |
| Agreement.OnDayConcat | calendar-work-report-generator.js:85-102 | a day's events distribute over concatenation |
| Agreement.OnDayOfRun | calendar-work-report-generator.js:85-102 | a run of one day holds all its events for that day and none for another |
| Agreement.OnDayAbsent | calendar-work-report-generator.js:85-102 | a day without a section has no events |
| Agreement.OnDayFlatten | calendar-work-report-generator.js:85-102 | when section days are distinct, a section holds exactly its day's events |
| Description.CleanHtmlDescription | calendar-work-report-generator.js:171-180 | a missing description gives the empty string, and text without '<' is returned unchanged; CleanSpan, CleanBulletedList, CleanListItems and CleanBreakTag state what the seven steps do to spans, lists and line breaks |
| Description.MatchLength | calendar-work-report-generator.js:173-179 | a match lies inside the input, starts with '<', and for a fixed tag is that tag in any letter case |
| Description.SpaceRun | calendar-work-report-generator.js:173 | the run of `\s*` is all whitespace and is followed by a non-space |
| Description.NonCloseRun | calendar-work-report-generator.js:174 | the run of `[^>]*` holds no '>' and is followed by one when it stops early |
| Description.ReplaceAllPlainPrefix | calendar-work-report-generator.js:172-179 | a stretch without '<' passes every replacement unchanged |
| Description.ReplaceAllPlain | calendar-work-report-generator.js:172-179 | text without '<' is left unchanged by a tag replacement |
| Description.CleanedWithoutTags | calendar-work-report-generator.js:172-179 | text without '<' passes the whole replacement chain unchanged |
| Description.CleanedAfterBreaks | calendar-work-report-generator.js:173-179 | once the break tags are replaced, text without '<' is final |
| Description.SpaceRunOfSpaces | calendar-work-report-generator.js:173 | the whitespace run stops at the first non-space |
| Description.CleanBreakTag | calendar-work-report-generator.js:173 | "<br", in either case and with any whitespace, then ">" or "/>", cleans to one newline |
| Description.CleanBreakExamples | calendar-work-report-generator.js:173 | "<br>", "<br/>" and "<BR />" each clean to a newline |
| Description.ReplaceAllWrapped | calendar-work-report-generator.js:172-179 | a replacement that rewrites the opening and closing tags rewrites a tag-wrapped list item by item |
| Description.ReplaceAllWrappedThen | calendar-work-report-generator.js:172-179 | the same for a list followed by more text: the list is rewritten item by item and the replacement goes on after it |
| Description.ListUntouchedThen | calendar-work-report-generator.js:173-177 | each of the first five replacements leaves a plain list of items unchanged and goes on after it |
| Description.ReplaceAll | calendar-work-report-generator.js:172-179 | one global regex replacement, scanning left to right and replacing each match; TagKept, ReplaceAllPlain, ReplaceAllWrapped and ReplaceAllAvoids state what it does |
| Description.TagKept | calendar-work-report-generator.js:172-179 | a tag the pattern does not match is copied through |
| Description.ItemOpenMatches | calendar-work-report-generator.js:173-179 | of the seven patterns only the `<li>` pattern matches "<li>", and it matches four characters |
| Description.ItemCloseMatches | calendar-work-report-generator.js:173-179 | of the seven patterns only the `</li>` pattern matches "</li>", and it matches five characters |
| Description.ItemOpenKept | calendar-work-report-generator.js:173-177 | the five replacements before the list-item ones copy "<li>" through |
| Description.ItemCloseKept | calendar-work-report-generator.js:173-178 | the six replacements before the last copy "</li>" through |
| Description.UnwrappedList | calendar-work-report-generator.js:173-177 | a plain list of items survives the first five replacements |
| Description.ListUntouched | calendar-work-report-generator.js:173-177 | each of the first five replacements leaves a plain list of items unchanged |
| Description.ItemsOpened | calendar-work-report-generator.js:178 | every "<li>" of the list becomes the bullet |
| Description.ItemsClosed | calendar-work-report-generator.js:179 | every "</li>" of the list becomes a newline |
| Description.CleanListItems | calendar-work-report-generator.js:171-180 | "<li>A</li><li>B</li>…" cleans to the bullet, "A", a newline, the bullet, "B", a newline, … |
| Description.ListOpenMatches | calendar-work-report-generator.js:173-177 | of the five patterns before the list items only the `<ul>` pattern matches "<ul>", and it matches four characters |
| Description.ListCloseMatches | calendar-work-report-generator.js:173-177 | of the five patterns before the list items only the `</ul>` pattern matches "</ul>", and it matches five characters |
| Description.ListOpenRemoved | calendar-work-report-generator.js:176 | the `<ul>` step removes the opening tag of a list and leaves its items and closing tag |
| Description.ListCloseRemoved | calendar-work-report-generator.js:177 | the `</ul>` step removes the closing tag after a list and leaves its items |
| Description.UnwrappedUl | calendar-work-report-generator.js:173-177 | the first five steps take a `<ul>` list of tag-free items out of its wrapper and leave the items as they are |
| Description.CleanBulletedList | calendar-work-report-generator.js:171-180 | "<ul><li>A</li><li>B</li>…</ul>" cleans to the bullet, "A", a newline, the bullet, "B", a newline, … |
| Description.SpanCloseMatches | calendar-work-report-generator.js:173-175 | neither the line-break nor the opening span pattern matches "</span>", and the closing span pattern matches all seven characters |
| Description.SpanOpenMatch | calendar-work-report-generator.js:174 | "<span", attributes without '>', then '>' is matched up to and including that '>' |
| Description.SpanBreaksKept | calendar-work-report-generator.js:173 | the line-break step copies a span whose attributes and text hold no tag |
| Description.SpanOpenRemoved | calendar-work-report-generator.js:174 | the opening span step removes the opening tag with its attributes and keeps the text and closing tag |
| Description.SpanCloseRemoved | calendar-work-report-generator.js:175 | the closing span step removes "</span>" after tag-free text |
| Description.CleanSpan | calendar-work-report-generator.js:171-180 | "<span attributes>text</span>", with no tag in the attributes or the text, cleans to the text |
| Description.SpanWithBreakInAttributes | calendar-work-report-generator.js:173-174 | when a span's attributes hold "<br>", the line-break step runs first and the opening span pattern then reaches the '>' of the closing tag, so the text is removed with it |
| Description.ContainsInSuffix | calendar-work-report-generator.js:178-179 | a tag found in a suffix is found in the string |
| Description.ReplacePrefix | calendar-work-report-generator.js:178-179 | while the output avoids the replacement's first character, it copies the input character for character |
| Description.ReplaceAllAvoids | calendar-work-report-generator.js:178-179 | a replacement that cannot form the tag `u` leaves no `u`, in any case, either where it replaced `u` or when the input had none |
| Description.NoTagAtCopiedStart | calendar-work-report-generator.js:178-179 | where the input is copied, the output does not start with the tag unless the input holds it |
| Description.CopiedStart | calendar-work-report-generator.js:178-179 | an output that starts with the tag and was copied at its start comes from an input that starts with it |
| Description.UnmatchedStart | calendar-work-report-generator.js:178-179 | an input that starts with a tag its pattern does not match contains that tag under another pattern |
| Description.CleanLeavesNoListTags | calendar-work-report-generator.js:171-180 | no "<li>" or "</li>", in any letter case, remains in any cleaned description |
| Report.BrLines | calendar-work-report-generator.js:107 | the description cell has no newline left, text without newlines is unchanged, and each newline adds three characters |
| Report.BrLinesAt | calendar-work-report-generator.js:107 | each character of the description is rendered in place: a newline as `<br>`, any other character as itself |
| Report.BrLinesBreak | calendar-work-report-generator.js:107 | a newline between two texts becomes `<br>` between their renderings |
| Report.BrLinesAppend | calendar-work-report-generator.js:107 | the rendering distributes over concatenation |
| Report.BrLinesWrapped | calendar-work-report-generator.js:107 | the description cell of a bulleted list of lines holds bullets separated by `<br>` |
| Report.BulletedListCell | calendar-work-report-generator.js:107 | the description cell of a cleaned `<li>` list holds the bullet and item, each followed by `<br>` |

## Left out

- The calendar service. Looking calendars up by name and fetching their entries in the time range are foreign calls. The model takes the calendars with the configured name as a list, each given by its entries. The log line for a missing calendar is not modelled.
- Sending the report by mail, and building the subject line with its month name, are output only.
- The time-zone library. The instant-to-day mapping is the parameter `dayOf`. The "HH:mm" start and end times of an event row are not modelled: the row carries the event itself.
- Floating-point arithmetic and the two-decimal `toFixed` rendering. Durations and sums are exact rationals, so the model does not capture rounding in the sums.
- The HTML and CSS text of the tables is fixed markup, modelled by row kinds.
- The configuration constants are parameters: the calendar name, the date range, the address, the colour map and the mode.
- The bullet text `Description.Bullet` is the script's literal, mis-encoded bullet characters, taken as a constant.
- Years above 9999 are left out of the `Day` type. The "dd.MM.yyyy" key then has more than four year digits, and the comparator's date parsing is not modelled for them.
- Calendar.ParseIsoDate: accepts any day from 1 to 31 in any month. A real date parser rejects or rolls over days past the month's end and handles extended years. Neither case arises for keys of real days.
- Calendar.SortKey: an unparseable key gets -1. In JavaScript the comparator returns NaN for it instead. The lemmas show this never happens for keys the report makes.
- Agreement.DetailedAgreesWithSummary: requires a monotone `dayOf`. A time-zone mapping that goes back in time could split one day into two sections.
- Agreement.SectionIsDay: requires a monotone `dayOf`, for the same reason.
- Agreement.SameDays: requires a monotone `dayOf`, for the same reason.
- Description.CleanSpan: stated for attributes and text that hold no '<'. Other spans depend on what the earlier steps do inside them; SpanWithBreakInAttributes shows one such case, where the text is lost.
- Events are values, so the stable copy made before sorting is implicit: the caller's list cannot change.
