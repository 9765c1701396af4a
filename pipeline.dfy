/**
 * The entry point: look up the configured calendar, keep its work events and
 * build the report of the configured mode. The calendar service is given as
 * the calendars carrying the configured name, each by its entries in the
 * configured time range; mailing the report is not modelled.
 */
module Pipeline {
  import opened Wrappers
  import opened Calendar
  import opened Events
  import opened Report
  import opened Summary
  import opened Detailed

  /** The first calendar with the configured name; none when no calendar has it. */
  function CalendarByName(calendars: seq<seq<RawEvent>>): (r: Option<seq<RawEvent>>)
    ensures r.None? <==> calendars == []
    ensures r.Some? ==> r.value == calendars[0]
  {
    if |calendars| == 0 then None else Some(calendars[0])
  }

  /** The report of either mode: "minimal" selects the summary, any other mode the detailed report. */
  function ReportRows(events: seq<WorkEvent>, mode: string, dayOf: int -> Day): seq<Row> {
    if mode == "minimal" then SummaryRows(events, dayOf) else DetailedRows(events, dayOf)
  }

  /**
   * Builds the report of the work events of the configured calendar; nothing
   * is built when there is no such calendar.
   */
  method SummarizeWorkEvents(calendars: seq<seq<RawEvent>>, colors: map<string, string>, mode: string, dayOf: int -> Day)
    returns (report: Option<seq<Row>>)
    ensures report.None? <==> calendars == []
    ensures report.Some? ==> report.value == ReportRows(FilterEvents(calendars[0], colors), mode, dayOf)
  {
    var calendar := CalendarByName(calendars);
    if calendar.None? {
      return None;
    }
    var events := FilterEvents(calendar.value, colors);
    var htmlReport: seq<Row>;
    if mode == "minimal" {
      htmlReport := GenerateMinimalReport(events, dayOf);
    } else {
      htmlReport := GenerateRobustReport(events, dayOf);
    }
    report := Some(htmlReport);
  }

  /** Both modes open with the same total: the hours of all work events of the calendar. */
  lemma ReportTotal(raw: seq<RawEvent>, colors: map<string, string>, mode: string, dayOf: int -> Day)
    ensures ReportRows(FilterEvents(raw, colors), mode, dayOf)[0] == TotalRow(Total(FilterEvents(raw, colors)))
  {
    DetailedSubtotalsAddUp(FilterEvents(raw, colors), dayOf);
  }

  /** An entry whose colour is not listed changes neither report, wherever it sits among the entries. */
  lemma IgnoresOtherColours(a: seq<RawEvent>, e: RawEvent, b: seq<RawEvent>, colors: map<string, string>, mode: string, dayOf: int -> Day)
    requires e.color !in colors
    ensures ReportRows(FilterEvents(a + [e] + b, colors), mode, dayOf) == ReportRows(FilterEvents(a + b, colors), mode, dayOf)
  {
    FilterAppend(a + [e], b, colors);
    FilterAppend(a, b, colors);
    FilterSkips(a, e, colors);
  }

  lemma FilterSkips(raw: seq<RawEvent>, e: RawEvent, colors: map<string, string>)
    requires e.color !in colors
    ensures FilterEvents(raw + [e], colors) == FilterEvents(raw, colors)
  {
    assert (raw + [e])[..|raw|] == raw;
  }
}
