/**
 * The detailed report: the total hours, then the events in start-time order,
 * one section per run of events on the same day. A section is a date row, a
 * column header, the day's events numbered from 1, and the day's subtotal;
 * a divider separates consecutive sections.
 */
module Detailed {
  import opened Calendar
  import opened Sorting
  import opened Events
  import opened Report
  import opened Seqs

  /** A run of consecutive events that start on the same day. */
  datatype Bucket = Bucket(day: string, events: seq<WorkEvent>)

  /** Splits the events into maximal runs of consecutive events of the same day. */
  function Group(s: seq<WorkEvent>, dayOf: int -> Day): (bs: seq<Bucket>)
    ensures bs == [] <==> s == []
  {
    if s == [] then []
    else
      var n := |s| - 1;
      var bs := Group(s[..n], dayOf);
      var k := DayKey(s[n], dayOf);
      if bs != [] && bs[|bs| - 1].day == k then bs[..|bs| - 1] + [Bucket(k, bs[|bs| - 1].events + [s[n]])]
      else bs + [Bucket(k, [s[n]])]
  }

  /** The events of the buckets, one bucket after the other. */
  function Flatten(bs: seq<Bucket>): seq<WorkEvent> {
    if bs == [] then [] else Flatten(bs[..|bs| - 1]) + bs[|bs| - 1].events
  }

  /** The day of each bucket. */
  function Days(bs: seq<Bucket>): seq<string> {
    seq(|bs|, j requires 0 <= j < |bs| => bs[j].day)
  }

  /**
   * Every bucket holds at least one event, all of its own day, and two
   * neighbouring buckets are of different days.
   */
  ghost predicate Runs(bs: seq<Bucket>, dayOf: int -> Day) {
    && (forall j :: 0 <= j < |bs| ==> bs[j].events != [] && forall e :: e in bs[j].events ==> DayKey(e, dayOf) == bs[j].day)
    && (forall j :: 0 < j < |bs| ==> bs[j - 1].day != bs[j].day)
  }

  lemma GroupStep(s: seq<WorkEvent>, x: WorkEvent, dayOf: int -> Day)
    ensures var bs := Group(s, dayOf);
      Group(s + [x], dayOf)
      == if bs != [] && bs[|bs| - 1].day == DayKey(x, dayOf)
         then bs[..|bs| - 1] + [Bucket(DayKey(x, dayOf), bs[|bs| - 1].events + [x])]
         else bs + [Bucket(DayKey(x, dayOf), [x])]
  {
    assert (s + [x])[..|s|] == s;
  }

  lemma FlattenStep(bs: seq<Bucket>, b: Bucket)
    ensures Flatten(bs + [b]) == Flatten(bs) + b.events
  {
    assert (bs + [b])[..|bs|] == bs;
  }

  /** The grouping keeps the events in order and cuts them into maximal runs of one day. */
  lemma GroupIsRuns(s: seq<WorkEvent>, dayOf: int -> Day)
    ensures Flatten(Group(s, dayOf)) == s
    ensures Runs(Group(s, dayOf), dayOf)
    ensures s != [] ==> Group(s, dayOf)[|Group(s, dayOf)| - 1].day == DayKey(s[|s| - 1], dayOf)
  {
    GroupFlatten(s, dayOf);
    GroupRuns(s, dayOf);
  }

  lemma {:induction false} GroupFlatten(s: seq<WorkEvent>, dayOf: int -> Day)
    ensures Flatten(Group(s, dayOf)) == s
  {
    if s != [] {
      var n := |s| - 1;
      var x := s[n];
      var bs := Group(s[..n], dayOf);
      var k := DayKey(x, dayOf);
      GroupFlatten(s[..n], dayOf);
      LastSplit(s);
      if bs != [] && bs[|bs| - 1].day == k {
        var m := |bs| - 1;
        var last := bs[m];
        LastSplit(bs);
        FlattenStep(bs[..m], last);
        FlattenStep(bs[..m], Bucket(k, last.events + [x]));
        Assoc(Flatten(bs[..m]), last.events, [x]);
        assert Flatten(Group(s, dayOf)) == Flatten(bs) + [x];
      } else {
        FlattenStep(bs, Bucket(k, [x]));
        assert Flatten(Group(s, dayOf)) == Flatten(bs) + [x];
      }
    }
  }

  lemma {:induction false} GroupRuns(s: seq<WorkEvent>, dayOf: int -> Day)
    ensures Runs(Group(s, dayOf), dayOf)
    ensures s != [] ==> Group(s, dayOf)[|Group(s, dayOf)| - 1].day == DayKey(s[|s| - 1], dayOf)
  {
    if s != [] {
      var n := |s| - 1;
      var x := s[n];
      var bs := Group(s[..n], dayOf);
      var k := DayKey(x, dayOf);
      GroupRuns(s[..n], dayOf);
      if bs != [] && bs[|bs| - 1].day == k {
        var m := |bs| - 1;
        var g := bs[..m] + [Bucket(k, bs[m].events + [x])];
        RunsExtendLast(bs, x, dayOf);
        assert Group(s, dayOf) == g;
      } else {
        var g := bs + [Bucket(k, [x])];
        RunsAppend(bs, Bucket(k, [x]), dayOf);
        assert Group(s, dayOf) == g;
      }
    }
  }

  /** The last bucket is of the day of the last event. */
  lemma GroupLastDay(s: seq<WorkEvent>, dayOf: int -> Day)
    requires s != []
    ensures Group(s, dayOf)[|Group(s, dayOf)| - 1].day == DayKey(s[|s| - 1], dayOf)
  {
  }

  lemma RunsExtendLast(bs: seq<Bucket>, x: WorkEvent, dayOf: int -> Day)
    requires Runs(bs, dayOf) && bs != []
    requires DayKey(x, dayOf) == bs[|bs| - 1].day
    ensures var m := |bs| - 1;
      Runs(bs[..m] + [Bucket(bs[m].day, bs[m].events + [x])], dayOf)
  {
    var m := |bs| - 1;
    var b := Bucket(bs[m].day, bs[m].events + [x]);
    var next := bs[..m] + [b];
    forall j | 0 <= j < |next| ensures next[j].day == bs[j].day {
    }
    forall e | e in b.events ensures DayKey(e, dayOf) == b.day {
      if e != x {
        assert e in bs[m].events;
      }
    }
    forall j | 0 <= j < m ensures next[j] == bs[j] {
    }
  }

  lemma RunsAppend(bs: seq<Bucket>, b: Bucket, dayOf: int -> Day)
    requires Runs(bs, dayOf)
    requires b.events != [] && forall e :: e in b.events ==> DayKey(e, dayOf) == b.day
    requires bs == [] || bs[|bs| - 1].day != b.day
    ensures Runs(bs + [b], dayOf)
  {
    var next := bs + [b];
    forall j | 0 <= j < |bs| ensures next[j] == bs[j] {
    }
  }

  /** Grouping is the only way to cut the events into maximal runs of one day. */
  lemma {:induction false} GroupUnique(s: seq<WorkEvent>, bs: seq<Bucket>, dayOf: int -> Day)
    requires Flatten(bs) == s && Runs(bs, dayOf)
    ensures bs == Group(s, dayOf)
    decreases |s|
  {
    if bs != [] {
      var m := |bs| - 1;
      var b := bs[m];
      var x := b.events[|b.events| - 1];
      if |b.events| == 1 {
        assert b.events[0] in b.events;
        assert b == Bucket(DayKey(x, dayOf), [x]);
        assert bs == bs[..m] + [b];
        DropRun(bs[..m], x, dayOf);
        FlattenStep(bs[..m], b);
        var t := Flatten(bs[..m]);
        assert s[..|s| - 1] == t;
        GroupUnique(t, bs[..m], dayOf);
        GroupStep(t, x, dayOf);
      } else {
        var shorter := DropEvent(bs, dayOf);
        var t := Flatten(shorter);
        assert s[..|s| - 1] == t;
        GroupUnique(t, shorter, dayOf);
        GroupStep(t, x, dayOf);
      }
    }
  }

  /** Removing a run of one event leaves runs. */
  lemma DropRun(pre: seq<Bucket>, x: WorkEvent, dayOf: int -> Day)
    requires Runs(pre + [Bucket(DayKey(x, dayOf), [x])], dayOf)
    ensures Runs(pre, dayOf)
    ensures pre != [] ==> pre[|pre| - 1].day != DayKey(x, dayOf)
  {
    var bs := pre + [Bucket(DayKey(x, dayOf), [x])];
    forall j | 0 <= j < |pre| ensures pre[j] == bs[j] {
    }
    if pre != [] {
      assert bs[|pre| - 1].day != bs[|pre|].day;
    }
  }

  /** Removing the last event of a longer run leaves runs. */
  lemma DropEvent(bs: seq<Bucket>, dayOf: int -> Day) returns (shorter: seq<Bucket>)
    requires bs != [] && Runs(bs, dayOf) && |bs[|bs| - 1].events| > 1
    ensures var m := |bs| - 1; var b := bs[m]; var x := b.events[|b.events| - 1];
      && |shorter| == |bs|
      && shorter[..m] == bs[..m]
      && shorter[m].day == DayKey(x, dayOf)
      && Runs(shorter, dayOf)
      && Flatten(bs) == Flatten(shorter) + [x]
      && bs == shorter[..m] + [Bucket(DayKey(x, dayOf), shorter[m].events + [x])]
  {
    var m := |bs| - 1;
    var b := bs[m];
    var ev := b.events;
    var x := ev[|ev| - 1];
    var front := ev[..|ev| - 1];
    assert ev == front + [x];
    assert x in ev;
    shorter := bs[..m] + [Bucket(b.day, front)];
    assert bs == bs[..m] + [b];
    assert shorter[..m] == bs[..m];
    FlattenStep(bs[..m], b);
    FlattenStep(bs[..m], Bucket(b.day, front));
    forall e | e in front ensures DayKey(e, dayOf) == b.day {
      assert e in ev;
    }
    forall j | 0 < j < |shorter| ensures shorter[j - 1].day != shorter[j].day {
      assert shorter[j - 1] == bs[j - 1];
      assert shorter[j].day == bs[j].day;
    }
  }

  /** The event rows of one day's events, numbered from 1. */
  function EventRows(es: seq<WorkEvent>): (r: seq<Row>)
    ensures |r| == |es|
    ensures forall k :: 0 <= k < |es| ==> r[k] == EventRow(k + 1, es[k])
  {
    if es == [] then []
    else
      var n := |es| - 1;
      var rest := EventRows(es[..n]);
      assert forall k :: 0 <= k < n ==> es[..n][k] == es[k];
      rest + [EventRow(n + 1, es[n])]
  }

  /** The rows of a section before its subtotal. */
  function Open(b: Bucket): seq<Row> {
    [DateRow(b.day), ColumnHeaderRow] + EventRows(b.events)
  }

  function Section(b: Bucket): seq<Row> {
    Open(b) + [SubtotalRow(Total(b.events))]
  }

  /** Sections each followed by a divider. */
  function Closed(bs: seq<Bucket>): seq<Row> {
    if bs == [] then [] else Closed(bs[..|bs| - 1]) + Section(bs[|bs| - 1]) + [DividerRow]
  }

  /** Sections separated by dividers. */
  function Body(bs: seq<Bucket>): seq<Row> {
    if bs == [] then [] else Closed(bs[..|bs| - 1]) + Section(bs[|bs| - 1])
  }

  /** The rows emitted before the subtotal of the last bucket. */
  function Partial(bs: seq<Bucket>): seq<Row>
    requires bs != []
  {
    Closed(bs[..|bs| - 1]) + Open(bs[|bs| - 1])
  }

  /** The rows of the detailed report. */
  function DetailedRows(events: seq<WorkEvent>, dayOf: int -> Day): seq<Row> {
    var sorted := StableSort(events, StartOf);
    [TotalRow(Total(sorted))] + Body(Group(sorted, dayOf))
  }

  /**
   * Builds the detailed report in one pass over the sorted events, keeping
   * the current day, the day's hours so far and the day's event count.
   */
  method GenerateRobustReport(events: seq<WorkEvent>, dayOf: int -> Day) returns (rows: seq<Row>)
    ensures rows == DetailedRows(events, dayOf)
  {
    var sorted := StableSort(events, StartOf);
    var totalWorkHours := Total(sorted);
    var head := [TotalRow(totalWorkHours)];
    rows := head;
    var currentDay: string := "";
    var dailyTotal: real := 0.0;
    var eventCounter: nat := 0;
    for i := 0 to |sorted|
      invariant i == 0 ==> currentDay == "" && rows == head
      invariant i > 0 ==> Scanned(Group(sorted[..i], dayOf), head, rows, currentDay, dailyTotal, eventCounter)
    {
      rows, currentDay, dailyTotal, eventCounter :=
        ScanEvent(sorted[..i], sorted[i], head, rows, currentDay, dailyTotal, eventCounter, dayOf);
      PrefixStep(sorted, i);
    }
    assert sorted[..|sorted|] == sorted;
    if currentDay != "" {
      rows := rows + [SubtotalRow(dailyTotal)];
      LastSection(Group(sorted, dayOf), head);
    }
  }

  /**
   * One step of the scan: an event of a new day closes the current day (if
   * any) and opens a section; then the event gets the next number and its
   * hours join the day's.
   */
  method ScanEvent(before: seq<WorkEvent>, e: WorkEvent, head: seq<Row>, rows: seq<Row>,
                   currentDay: string, dailyTotal: real, eventCounter: nat, dayOf: int -> Day)
    returns (rows': seq<Row>, currentDay': string, dailyTotal': real, eventCounter': nat)
    requires before == [] ==> currentDay == "" && rows == head
    requires before != [] ==> Scanned(Group(before, dayOf), head, rows, currentDay, dailyTotal, eventCounter)
    ensures Scanned(Group(before + [e], dayOf), head, rows', currentDay', dailyTotal', eventCounter')
  {
    rows', currentDay', dailyTotal', eventCounter' := rows, currentDay, dailyTotal, eventCounter;
    var dayStr := DayKey(e, dayOf);
    if dayStr != currentDay' {
      if currentDay' != "" {
        rows' := rows' + [SubtotalRow(dailyTotal'), DividerRow];
      }
      currentDay' := dayStr;
      dailyTotal' := 0.0;
      eventCounter' := 0;
      rows' := rows' + [DateRow(currentDay'), ColumnHeaderRow];
      if currentDay != "" {
        NewDay(before, e, head, rows, currentDay, dailyTotal, eventCounter, dayOf);
      } else {
        FirstDay(e, head, dayOf);
      }
    } else {
      SameDay(before, e, head, rows, currentDay, dailyTotal, eventCounter, dayOf);
    }
    assert Ready(before, e, head, rows', currentDay', dailyTotal', eventCounter', dayOf);
    eventCounter' := eventCounter' + 1;
    dailyTotal' := dailyTotal' + e.duration;
    rows' := rows' + [EventRow(eventCounter', e)];
  }

  /** The state of the scan after the events of `bs`. */
  ghost predicate Scanned(bs: seq<Bucket>, head: seq<Row>, rows: seq<Row>, currentDay: string, dailyTotal: real, eventCounter: nat) {
    && bs != []
    && currentDay == bs[|bs| - 1].day
    && currentDay != ""
    && dailyTotal == Total(bs[|bs| - 1].events)
    && eventCounter == |bs[|bs| - 1].events|
    && rows == head + Partial(bs)
  }

  /** The state just before the row of event `e` is emitted. */
  ghost predicate Ready(s: seq<WorkEvent>, e: WorkEvent, head: seq<Row>, rows: seq<Row>,
                        currentDay: string, dailyTotal: real, eventCounter: nat, dayOf: int -> Day) {
    Scanned(Group(s + [e], dayOf), head, rows + [EventRow(eventCounter + 1, e)],
            currentDay, dailyTotal + e.duration, eventCounter + 1)
  }

  lemma FirstDay(e: WorkEvent, head: seq<Row>, dayOf: int -> Day)
    ensures Ready([], e, head, head + [DateRow(DayKey(e, dayOf)), ColumnHeaderRow], DayKey(e, dayOf), 0.0, 0, dayOf)
  {
    var b := Bucket(DayKey(e, dayOf), [e]);
    GroupStep([], e, dayOf);
    assert [] + [e] == [e];
    assert Group([] + [e], dayOf) == [b];
    PartialOf([], b);
    assert [] + [b] == [b];
    OpenStep(Bucket(b.day, []), e);
    assert [] + [e] == [e];
    TotalSingle(e);
  }

  /** An event of the current day: one more numbered row, and its hours join the day's. */
  lemma SameDay(s: seq<WorkEvent>, e: WorkEvent, head: seq<Row>, rows: seq<Row>,
                currentDay: string, dailyTotal: real, eventCounter: nat, dayOf: int -> Day)
    requires Scanned(Group(s, dayOf), head, rows, currentDay, dailyTotal, eventCounter)
    requires DayKey(e, dayOf) == currentDay
    ensures Ready(s, e, head, rows, currentDay, dailyTotal, eventCounter, dayOf)
  {
    var bs := Group(s, dayOf);
    var m := |bs| - 1;
    var last := bs[m];
    var b := Bucket(last.day, last.events + [e]);
    GroupStep(s, e, dayOf);
    assert Group(s + [e], dayOf) == bs[..m] + [b];
    assert bs == bs[..m] + [last];
    PartialOf(bs[..m], last);
    PartialOf(bs[..m], b);
    OpenStep(last, e);
    Assoc(head, Closed(bs[..m]) + Open(last), [EventRow(|last.events| + 1, e)]);
    Assoc(Closed(bs[..m]), Open(last), [EventRow(|last.events| + 1, e)]);
    TotalStep(last.events, e);
  }

  /** An event of another day: the current day is closed and a new section opened. */
  lemma NewDay(s: seq<WorkEvent>, e: WorkEvent, head: seq<Row>, rows: seq<Row>,
               currentDay: string, dailyTotal: real, eventCounter: nat, dayOf: int -> Day)
    requires Scanned(Group(s, dayOf), head, rows, currentDay, dailyTotal, eventCounter)
    requires DayKey(e, dayOf) != currentDay
    ensures Ready(s, e, head, rows + [SubtotalRow(dailyTotal), DividerRow] + [DateRow(DayKey(e, dayOf)), ColumnHeaderRow],
                  DayKey(e, dayOf), 0.0, 0, dayOf)
  {
    var bs := Group(s, dayOf);
    var m := |bs| - 1;
    var last := bs[m];
    var b := Bucket(DayKey(e, dayOf), [e]);
    GroupStep(s, e, dayOf);
    assert Group(s + [e], dayOf) == bs + [b];
    assert bs == bs[..m] + [last];
    PartialOf(bs[..m], last);
    PartialOf(bs, b);
    ClosedStep(bs[..m], last);
    OpenStep(Bucket(b.day, []), e);
    assert [] + [e] == [e];
    TotalSingle(e);
    NewDayRows(head, Closed(bs[..m]), Open(last), SubtotalRow(dailyTotal), DateRow(b.day), EventRow(1, e));
  }

  lemma NewDayRows(head: seq<Row>, c: seq<Row>, o: seq<Row>, sub: Row, date: Row, x: Row)
    ensures head + (c + o) + [sub, DividerRow] + [date, ColumnHeaderRow] + [x]
         == head + ((c + (o + [sub]) + [DividerRow]) + ([date, ColumnHeaderRow] + [] + [x]))
  {
  }

  lemma PartialOf(pre: seq<Bucket>, b: Bucket)
    ensures Partial(pre + [b]) == Closed(pre) + Open(b)
  {
    assert (pre + [b])[..|pre|] == pre;
  }

  lemma ClosedStep(pre: seq<Bucket>, b: Bucket)
    ensures Closed(pre + [b]) == Closed(pre) + Section(b) + [DividerRow]
  {
    assert (pre + [b])[..|pre|] == pre;
  }

  lemma OpenStep(b: Bucket, e: WorkEvent)
    ensures Open(Bucket(b.day, b.events + [e])) == Open(b) + [EventRow(|b.events| + 1, e)]
  {
    var ev := b.events;
    assert (ev + [e])[..|ev|] == ev;
    assert EventRows(ev + [e]) == EventRows(ev) + [EventRow(|ev| + 1, e)];
  }

  lemma LastSection(bs: seq<Bucket>, head: seq<Row>)
    requires bs != []
    ensures head + Partial(bs) + [SubtotalRow(Total(bs[|bs| - 1].events))] == head + Body(bs)
  {
  }

  /** The events of the event rows, in the order of the rows. */
  function EventsShown(rows: seq<Row>): seq<WorkEvent> {
    if rows == [] then []
    else EventsShown(rows[..|rows| - 1]) + (if rows[|rows| - 1].EventRow? then [rows[|rows| - 1].event] else [])
  }

  /** The hours of the subtotal rows, in the order of the rows. */
  function Subtotals(rows: seq<Row>): seq<real> {
    if rows == [] then []
    else Subtotals(rows[..|rows| - 1]) + (if rows[|rows| - 1].SubtotalRow? then [rows[|rows| - 1].hours] else [])
  }

  function Sum(xs: seq<real>): real {
    if xs == [] then 0.0 else Sum(xs[..|xs| - 1]) + xs[|xs| - 1]
  }

  lemma {:induction false} EventsShownAppend(a: seq<Row>, b: seq<Row>)
    ensures EventsShown(a + b) == EventsShown(a) + EventsShown(b)
    decreases |b|
  {
    if b == [] {
      assert a + b == a;
    } else {
      var n := |b| - 1;
      assert (a + b)[..|a + b| - 1] == a + b[..n];
      EventsShownAppend(a, b[..n]);
    }
  }

  lemma {:induction false} SubtotalsAppend(a: seq<Row>, b: seq<Row>)
    ensures Subtotals(a + b) == Subtotals(a) + Subtotals(b)
    decreases |b|
  {
    if b == [] {
      assert a + b == a;
    } else {
      var n := |b| - 1;
      assert (a + b)[..|a + b| - 1] == a + b[..n];
      SubtotalsAppend(a, b[..n]);
    }
  }

  lemma {:induction false} SumAppend(a: seq<real>, b: seq<real>)
    ensures Sum(a + b) == Sum(a) + Sum(b)
    decreases |b|
  {
    if b == [] {
      assert a + b == a;
    } else {
      var n := |b| - 1;
      assert (a + b)[..|a + b| - 1] == a + b[..n];
      SumAppend(a, b[..n]);
    }
  }

  /** The event rows of a day show its events and no subtotal. */
  lemma {:induction false} EventRowsShow(es: seq<WorkEvent>)
    ensures EventsShown(EventRows(es)) == es
    ensures Subtotals(EventRows(es)) == []
  {
    if es != [] {
      var n := |es| - 1;
      var rest := EventRows(es[..n]);
      EventRowsShow(es[..n]);
      assert EventRows(es) == rest + [EventRow(n + 1, es[n])];
      EventsShownAppend(rest, [EventRow(n + 1, es[n])]);
      SubtotalsAppend(rest, [EventRow(n + 1, es[n])]);
      assert [EventRow(n + 1, es[n])][..0] == [];
      assert es == es[..n] + [es[n]];
    }
  }

  /** A section shows the events of its day and, once, their hours. */
  lemma SectionShows(b: Bucket)
    ensures EventsShown(Section(b)) == b.events
    ensures Subtotals(Section(b)) == [Total(b.events)]
  {
    var head: seq<Row> := [DateRow(b.day), ColumnHeaderRow];
    var rows := EventRows(b.events);
    var sub := [SubtotalRow(Total(b.events))];
    EventRowsShow(b.events);
    HeadShowsNothing(b.day);
    SubtotalShows(Total(b.events));
    assert Section(b) == (head + rows) + sub;
    EventsShownAppend(head + rows, sub);
    EventsShownAppend(head, rows);
    SubtotalsAppend(head + rows, sub);
    SubtotalsAppend(head, rows);
    assert EventsShown(Section(b)) == [] + b.events + [];
    assert Subtotals(Section(b)) == [] + [] + [Total(b.events)];
  }

  lemma HeadShowsNothing(day: string)
    ensures EventsShown([DateRow(day), ColumnHeaderRow]) == []
    ensures Subtotals([DateRow(day), ColumnHeaderRow]) == []
  {
    var rows := [DateRow(day), ColumnHeaderRow];
    assert rows[..1] == [DateRow(day)];
    assert [DateRow(day)][..0] == [];
    assert Subtotals([DateRow(day)]) == Subtotals([]) + [];
    assert EventsShown([DateRow(day)]) == [] && Subtotals([DateRow(day)]) == [];
    assert EventsShown(rows) == EventsShown(rows[..1]);
    assert Subtotals(rows) == Subtotals(rows[..1]);
  }

  lemma SubtotalShows(hours: real)
    ensures EventsShown([SubtotalRow(hours)]) == []
    ensures Subtotals([SubtotalRow(hours)]) == [hours]
  {
    assert [SubtotalRow(hours)][..0] == [];
  }

  /** The sections show the events of all buckets, and one subtotal per bucket. */
  lemma {:induction false} ClosedShows(bs: seq<Bucket>)
    ensures EventsShown(Closed(bs)) == Flatten(bs)
    ensures Sum(Subtotals(Closed(bs))) == Total(Flatten(bs))
  {
    if bs != [] {
      var m := |bs| - 1;
      ClosedShows(bs[..m]);
      BodyStep(bs);
      var div: seq<Row> := [DividerRow];
      EventsShownAppend(Body(bs), div);
      SubtotalsAppend(Body(bs), div);
      assert div[..0] == [];
      assert EventsShown(div) == [] && Subtotals(div) == [];
      assert Closed(bs) == Body(bs) + div;
      assert EventsShown(Body(bs)) + [] == EventsShown(Body(bs));
      assert Subtotals(Body(bs)) + [] == Subtotals(Body(bs));
    }
  }

  lemma BodyStep(bs: seq<Bucket>)
    requires bs != []
    requires EventsShown(Closed(bs[..|bs| - 1])) == Flatten(bs[..|bs| - 1])
    requires Sum(Subtotals(Closed(bs[..|bs| - 1]))) == Total(Flatten(bs[..|bs| - 1]))
    ensures EventsShown(Body(bs)) == Flatten(bs)
    ensures Sum(Subtotals(Body(bs))) == Total(Flatten(bs))
  {
    var m := |bs| - 1;
    SectionShows(bs[m]);
    BodyEvents(Closed(bs[..m]), bs[m]);
    BodyHours(Closed(bs[..m]), bs[m]);
    TotalAppend(Flatten(bs[..m]), bs[m].events);
  }

  lemma BodyEvents(c: seq<Row>, b: Bucket)
    requires EventsShown(Section(b)) == b.events
    ensures EventsShown(c + Section(b)) == EventsShown(c) + b.events
  {
    EventsShownAppend(c, Section(b));
  }

  lemma BodyHours(c: seq<Row>, b: Bucket)
    requires Subtotals(Section(b)) == [Total(b.events)]
    ensures Sum(Subtotals(c + Section(b))) == Sum(Subtotals(c)) + Total(b.events)
  {
    SubtotalsAppend(c, Section(b));
    SumAppend(Subtotals(c), [Total(b.events)]);
    assert [Total(b.events)][..0] == [];
  }

  /** The body shows the events of all buckets, and its subtotals add up to their hours. */
  lemma BodyShows(bs: seq<Bucket>)
    ensures EventsShown(Body(bs)) == Flatten(bs)
    ensures Sum(Subtotals(Body(bs))) == Total(Flatten(bs))
  {
    if bs != [] {
      ClosedShows(bs[..|bs| - 1]);
      BodyStep(bs);
    }
  }

  /**
   * The detailed report shows every event exactly once, numbered within its
   * day, in the order of their start times, events of equal start keeping
   * their order.
   */
  lemma DetailedShowsSortedEvents(events: seq<WorkEvent>, dayOf: int -> Day)
    ensures EventsShown(DetailedRows(events, dayOf)) == StableSort(events, StartOf)
    ensures multiset(EventsShown(DetailedRows(events, dayOf))) == multiset(events)
    ensures Sorted(EventsShown(DetailedRows(events, dayOf)), StartOf)
  {
    var sorted := StableSort(events, StartOf);
    var head: seq<Row> := [TotalRow(Total(sorted))];
    var bs := Group(sorted, dayOf);
    GroupFlatten(sorted, dayOf);
    BodyShows(bs);
    EventsShownAppend(head, Body(bs));
    assert head[..0] == [];
  }

  /**
   * The grand total heading the detailed report is the hours of all events,
   * and the daily subtotals add up to it.
   */
  lemma DetailedSubtotalsAddUp(events: seq<WorkEvent>, dayOf: int -> Day)
    ensures DetailedRows(events, dayOf)[0] == TotalRow(Total(events))
    ensures Sum(Subtotals(DetailedRows(events, dayOf))) == Total(events)
  {
    var sorted := StableSort(events, StartOf);
    var head: seq<Row> := [TotalRow(Total(sorted))];
    var bs := Group(sorted, dayOf);
    TotalPermutation(sorted, events);
    GroupFlatten(sorted, dayOf);
    BodyShows(bs);
    SubtotalsAppend(head, Body(bs));
    assert head[..0] == [];
    assert Subtotals(head) == [];
    assert Subtotals(head) + Subtotals(Body(bs)) == Subtotals(Body(bs));
  }

  /** Without events the detailed report is only the total row, zero. */
  lemma DetailedOfNoEvents(dayOf: int -> Day)
    ensures DetailedRows([], dayOf) == [TotalRow(0.0)]
  {
    assert StableSort([], StartOf) == [];
  }

  /** Every divider sits between the subtotal of one day and the date row of the next. */
  ghost predicate DividersSeparate(rows: seq<Row>) {
    forall i :: 0 <= i < |rows| && rows[i] == DividerRow ==>
      0 < i < |rows| - 1 && rows[i - 1].SubtotalRow? && rows[i + 1].DateRow?
  }

  /** Like `DividersSeparate`, except that the last row is a divider with nothing after it. */
  ghost predicate ClosedShape(rows: seq<Row>) {
    && (rows != [] ==> rows[|rows| - 1] == DividerRow)
    && forall i :: 0 <= i < |rows| && rows[i] == DividerRow ==>
         0 < i && rows[i - 1].SubtotalRow? && (i < |rows| - 1 ==> rows[i + 1].DateRow?)
  }

  /** A section opens with its date, closes with its subtotal and holds no divider. */
  ghost predicate SectionShape(rows: seq<Row>) {
    && |rows| >= 2 && rows[0].DateRow? && rows[|rows| - 1].SubtotalRow?
    && forall i :: 0 <= i < |rows| ==> rows[i] != DividerRow
  }

  lemma SectionIsShaped(b: Bucket)
    ensures SectionShape(Section(b))
  {
    var es := EventRows(b.events);
    var r := Section(b);
    assert r == [DateRow(b.day), ColumnHeaderRow] + es + [SubtotalRow(Total(b.events))];
    forall i | 0 <= i < |r| ensures r[i] != DividerRow {
      if 2 <= i < |r| - 1 {
        assert r[i] == es[i - 2];
      }
    }
  }

  lemma JoinSection(c: seq<Row>, t: seq<Row>)
    requires ClosedShape(c) && SectionShape(t)
    ensures DividersSeparate(c + t)
    ensures (c + t)[|c + t| - 1].SubtotalRow?
  {
    var r := c + t;
    forall i | 0 <= i < |r| && r[i] == DividerRow
      ensures 0 < i < |r| - 1 && r[i - 1].SubtotalRow? && r[i + 1].DateRow?
    {
      if i >= |c| {
        assert false;
      }
      assert r[i] == c[i];
      assert r[i - 1] == c[i - 1];
      if i == |c| - 1 {
        assert r[i + 1] == t[0];
      } else {
        assert r[i + 1] == c[i + 1];
      }
    }
  }

  lemma CloseSection(u: seq<Row>)
    requires u != [] && DividersSeparate(u) && u[|u| - 1].SubtotalRow?
    ensures ClosedShape(u + [DividerRow])
  {
    var r := u + [DividerRow];
    forall i | 0 <= i < |r| && r[i] == DividerRow
      ensures 0 < i && r[i - 1].SubtotalRow? && (i < |r| - 1 ==> r[i + 1].DateRow?)
    {
      if i < |u| {
        assert r[i] == u[i] && r[i - 1] == u[i - 1] && r[i + 1] == u[i + 1];
      } else {
        assert r[i - 1] == u[|u| - 1];
      }
    }
  }

  lemma {:induction false} ClosedIsShaped(bs: seq<Bucket>)
    ensures ClosedShape(Closed(bs))
  {
    if bs != [] {
      var m := |bs| - 1;
      ClosedIsShaped(bs[..m]);
      SectionIsShaped(bs[m]);
      JoinSection(Closed(bs[..m]), Section(bs[m]));
      CloseSection(Closed(bs[..m]) + Section(bs[m]));
    }
  }

  lemma HeadKeepsShape(head: Row, rows: seq<Row>)
    requires head != DividerRow && DividersSeparate(rows)
    ensures DividersSeparate([head] + rows)
  {
    var r := [head] + rows;
    forall i | 0 <= i < |r| && r[i] == DividerRow
      ensures 0 < i < |r| - 1 && r[i - 1].SubtotalRow? && r[i + 1].DateRow?
    {
      assert r[i] == rows[i - 1];
      if i > 1 {
        assert r[i - 1] == rows[i - 2];
      }
      assert r[i + 1] == rows[i];
    }
  }

  /** Every subtotal but a final one is followed by a divider. */
  ghost predicate DividerAfterSubtotals(rows: seq<Row>) {
    forall i :: 0 <= i < |rows| - 1 && rows[i].SubtotalRow? ==> rows[i + 1] == DividerRow
  }

  /** The only subtotal of a section is its last row. */
  lemma SectionSubtotalLast(b: Bucket)
    ensures forall i :: 0 <= i < |Section(b)| - 1 ==> !Section(b)[i].SubtotalRow?
  {
    var es := EventRows(b.events);
    var r := Section(b);
    assert r == [DateRow(b.day), ColumnHeaderRow] + es + [SubtotalRow(Total(b.events))];
    forall i | 0 <= i < |r| - 1 ensures !r[i].SubtotalRow? {
      if 2 <= i {
        assert r[i] == es[i - 2];
      }
    }
  }

  lemma {:induction false} ClosedSubtotals(bs: seq<Bucket>)
    ensures DividerAfterSubtotals(Closed(bs))
    ensures Closed(bs) != [] ==> Closed(bs)[|Closed(bs)| - 1] == DividerRow
  {
    if bs != [] {
      var m := |bs| - 1;
      var c := Closed(bs[..m]);
      var t := Section(bs[m]);
      var r := c + t + [DividerRow];
      assert Closed(bs) == r;
      ClosedSubtotals(bs[..m]);
      SectionSubtotalLast(bs[m]);
      forall i | 0 <= i < |r| - 1 ensures !r[i].SubtotalRow? || r[i + 1] == DividerRow {
        if i < |c| - 1 {
          assert r[i] == c[i] && r[i + 1] == c[i + 1];
        } else if i == |c| - 1 {
          assert r[i] == c[i];
        } else if i < |c| + |t| - 1 {
          assert r[i] == t[i - |c|];
        } else {
          assert r[i + 1] == DividerRow;
        }
      }
    }
  }

  lemma BodySubtotals(bs: seq<Bucket>)
    requires bs != []
    ensures DividerAfterSubtotals(Body(bs))
  {
    var m := |bs| - 1;
    var c := Closed(bs[..m]);
    var t := Section(bs[m]);
    var r := c + t;
    assert Body(bs) == r;
    ClosedSubtotals(bs[..m]);
    SectionSubtotalLast(bs[m]);
    forall i | 0 <= i < |r| - 1 ensures !r[i].SubtotalRow? || r[i + 1] == DividerRow {
      if i < |c| - 1 {
        assert r[i] == c[i] && r[i + 1] == c[i + 1];
      } else if i == |c| - 1 {
        assert r[i] == c[i];
      } else {
        assert r[i] == t[i - |c|];
      }
    }
  }

  lemma HeadKeepsSubtotals(head: Row, rows: seq<Row>)
    requires !head.SubtotalRow? && DividerAfterSubtotals(rows)
    ensures DividerAfterSubtotals([head] + rows)
  {
    var r := [head] + rows;
    forall i | 0 <= i < |r| - 1 ensures !r[i].SubtotalRow? || r[i + 1] == DividerRow {
      if i > 0 {
        assert r[i] == rows[i - 1] && r[i + 1] == rows[i];
      }
    }
  }

  /**
   * In the detailed report each divider follows a day's subtotal and precedes
   * the next day's date, and each day's subtotal but the last is followed by a
   * divider; with events, the report ends with the last day's subtotal.
   */
  lemma DetailedDividers(events: seq<WorkEvent>, dayOf: int -> Day)
    ensures DividersSeparate(DetailedRows(events, dayOf))
    ensures DividerAfterSubtotals(DetailedRows(events, dayOf))
    ensures events != [] ==> DetailedRows(events, dayOf)[|DetailedRows(events, dayOf)| - 1].SubtotalRow?
  {
    var sorted := StableSort(events, StartOf);
    var bs := Group(sorted, dayOf);
    if bs != [] {
      var m := |bs| - 1;
      ClosedIsShaped(bs[..m]);
      SectionIsShaped(bs[m]);
      JoinSection(Closed(bs[..m]), Section(bs[m]));
      HeadKeepsShape(TotalRow(Total(sorted)), Body(bs));
      BodySubtotals(bs);
      HeadKeepsSubtotals(TotalRow(Total(sorted)), Body(bs));
    } else {
      assert |multiset(events)| == |multiset(sorted)| == 0;
    }
  }
}
