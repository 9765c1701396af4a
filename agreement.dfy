/**
 * The two report modes agree. When the instant-to-day function never goes
 * back in time, the sections of the detailed report are the days of the
 * minimal report, in the same order, and the subtotal closing each section is
 * the hours the minimal report gives that day.
 */
module Agreement {
  import opened Calendar
  import opened Sorting
  import opened Events
  import opened Report
  import opened Summary
  import opened Detailed
  import opened Seqs

  /** The day and subtotal of each section of the detailed report, as summary rows. */
  function SectionDays(bs: seq<Bucket>): seq<Row> {
    seq(|bs|, j requires 0 <= j < |bs| => SummaryDayRow(bs[j].day, Total(bs[j].events)))
  }

  /** Section rows distribute over concatenation of sections. */
  lemma SectionDaysAppend(a: seq<Bucket>, b: seq<Bucket>)
    ensures SectionDays(a + b) == SectionDays(a) + SectionDays(b)
  {
    var l, r := SectionDays(a + b), SectionDays(a) + SectionDays(b);
    assert |l| == |r|;
    forall j | 0 <= j < |l| ensures l[j] == r[j] {
      if j < |a| {
        assert (a + b)[j] == a[j];
      } else {
        assert (a + b)[j] == b[j - |a|];
      }
    }
  }

  /**
   * The detailed report has one section per day of the minimal report, in the
   * minimal report's order, and its subtotals are the minimal report's hours.
   */
  lemma DetailedAgreesWithSummary(events: seq<WorkEvent>, dayOf: int -> Day)
    requires Monotone(dayOf)
    ensures Days(Group(StableSort(events, StartOf), dayOf)) == SortedDays(events, dayOf)
    ensures SectionDays(Group(StableSort(events, StartOf), dayOf)) == DayRows(SortedDays(events, dayOf), events, dayOf)
  {
    var s := StableSort(events, StartOf);
    var bs := Group(s, dayOf);
    SameDays(s, events, dayOf);
    forall j | 0 <= j < |bs| ensures Total(bs[j].events) == DayTotal(events, bs[j].day, dayOf) {
      SectionIsDay(s, events, dayOf, j);
    }
  }

  lemma SameDays(s: seq<WorkEvent>, events: seq<WorkEvent>, dayOf: int -> Day)
    requires s == StableSort(events, StartOf) && Monotone(dayOf)
    ensures Days(Group(s, dayOf)) == SortedDays(events, dayOf)
  {
    var ds := Days(Group(s, dayOf));
    LaterDays(s, dayOf);
    GroupDaysAscending(s, dayOf, SortKey);
    GroupDaysMembers(s, dayOf);
    SortedDaysAscending(events, dayOf);
    SameDayKeys(s, events, dayOf);
    StrictlySortedUnique(ds, SortedDays(events, dayOf), SortKey);
  }

  /** A section holds exactly the events of its day. */
  lemma SectionIsDay(s: seq<WorkEvent>, events: seq<WorkEvent>, dayOf: int -> Day, j: nat)
    requires s == StableSort(events, StartOf) && Monotone(dayOf)
    requires j < |Group(s, dayOf)|
    ensures Group(s, dayOf)[j].events == OnDay(s, Group(s, dayOf)[j].day, dayOf)
    ensures Total(Group(s, dayOf)[j].events) == DayTotal(events, Group(s, dayOf)[j].day, dayOf)
  {
    var bs := Group(s, dayOf);
    GroupFlatten(s, dayOf);
    GroupRuns(s, dayOf);
    LaterDays(s, dayOf);
    GroupDaysAscending(s, dayOf, SortKey);
    AscendingDistinct(bs, SortKey);
    OnDayFlatten(bs, j, dayOf);
    OnDayPermutation(s, events, bs[j].day, dayOf);
  }

  /** Days in ascending order are pairwise different. */
  lemma AscendingDistinct(bs: seq<Bucket>, key: string -> int)
    requires StrictlySorted(Days(bs), key)
    ensures forall i, j :: 0 <= i < j < |bs| ==> bs[i].day != bs[j].day
  {
    var ds := Days(bs);
    StrictlySortedDistinct(ds, key);
    forall i, j | 0 <= i < j < |bs| ensures bs[i].day != bs[j].day {
      assert ds[i] != ds[j];
    }
  }

  /** Events with the same multiset have the same days. */
  lemma SameDayKeys(a: seq<WorkEvent>, b: seq<WorkEvent>, dayOf: int -> Day)
    requires multiset(a) == multiset(b)
    ensures forall k :: k in DayKeys(a, dayOf) <==> k in DayKeys(b, dayOf)
  {
    DayKeysMembers(a, dayOf);
    DayKeysMembers(b, dayOf);
    forall k | k in DayKeys(a, dayOf) ensures k in DayKeys(b, dayOf) {
      var e :| e in a && DayKey(e, dayOf) == k;
      assert e in multiset(b);
    }
    forall k | k in DayKeys(b, dayOf) ensures k in DayKeys(a, dayOf) {
      var e :| e in b && DayKey(e, dayOf) == k;
      assert e in multiset(a);
    }
  }

  lemma DaysStep(bs: seq<Bucket>, b: Bucket)
    ensures Days(bs + [b]) == Days(bs) + [b.day]
  {
    assert (bs + [b])[..|bs|] == bs;
  }

  /** A later event of another day has a later day. */
  lemma LaterDay(a: WorkEvent, b: WorkEvent, dayOf: int -> Day)
    requires Monotone(dayOf) && a.startTime <= b.startTime
    requires DayKey(a, dayOf) != DayKey(b, dayOf)
    ensures SortKey(DayKey(a, dayOf)) < SortKey(DayKey(b, dayOf))
  {
    var da, db := dayOf(a.startTime), dayOf(b.startTime);
    assert Ordinal(da) <= Ordinal(db);
    SortKeyOfFormatDay(da);
    SortKeyOfFormatDay(db);
    SortKeyOrder(da, db);
  }

  /** Events sorted by start time under a monotone day function have ascending days. */
  lemma LaterDays(t: seq<WorkEvent>, dayOf: int -> Day)
    requires Sorted(t, StartOf) && Monotone(dayOf)
    ensures Ascending(t, dayOf, SortKey)
  {
    forall i, j | 0 <= i < j < |t| && DayKey(t[i], dayOf) != DayKey(t[j], dayOf)
      ensures SortKey(DayKey(t[i], dayOf)) < SortKey(DayKey(t[j], dayOf))
    {
      assert StartOf(t[i]) <= StartOf(t[j]);
      LaterDay(t[i], t[j], dayOf);
    }
  }

  /** Each event of another day than an earlier event has a larger key. */
  ghost predicate Ascending(t: seq<WorkEvent>, dayOf: int -> Day, key: string -> int) {
    forall i, j :: 0 <= i < j < |t| && DayKey(t[i], dayOf) != DayKey(t[j], dayOf) ==>
      key(DayKey(t[i], dayOf)) < key(DayKey(t[j], dayOf))
  }

  lemma AscendingPrefix(t: seq<WorkEvent>, n: nat, dayOf: int -> Day, key: string -> int)
    requires Ascending(t, dayOf, key) && n <= |t|
    ensures Ascending(t[..n], dayOf, key)
  {
    var p := t[..n];
    forall i | 0 <= i < n ensures p[i] == t[i] {
    }
  }

  lemma AppendAscending(ds: seq<string>, k: string, key: string -> int)
    requires StrictlySorted(ds, key)
    requires ds != [] ==> key(ds[|ds| - 1]) < key(k)
    ensures StrictlySorted(ds + [k], key)
  {
    var r := ds + [k];
    forall i, j | 0 <= i < j < |r| ensures key(r[i]) < key(r[j]) {
      if j == |ds| && i < |ds| - 1 {
        assert key(ds[i]) < key(ds[|ds| - 1]);
      }
    }
  }

  /** When days ascend along the events, the sections ascend too. */
  lemma {:induction false} GroupDaysAscending(t: seq<WorkEvent>, dayOf: int -> Day, key: string -> int)
    requires Ascending(t, dayOf, key)
    ensures StrictlySorted(Days(Group(t, dayOf)), key)
  {
    if t != [] {
      var n := |t| - 1;
      var bs := Group(t[..n], dayOf);
      var k := DayKey(t[n], dayOf);
      AscendingPrefix(t, n, dayOf, key);
      GroupDaysAscending(t[..n], dayOf, key);
      GroupDaysLast(t, dayOf);
      var ds := Days(bs);
      if bs != [] && ds[|bs| - 1] == k {
        assert Days(Group(t, dayOf)) == ds;
      } else {
        LastKeyBelow(t, dayOf, key);
        AppendAscending(ds, k, key);
        assert Days(Group(t, dayOf)) == ds + [k];
      }
    }
  }

  /** A new section's day has a larger key than the last section before it. */
  lemma LastKeyBelow(t: seq<WorkEvent>, dayOf: int -> Day, key: string -> int)
    requires t != [] && Ascending(t, dayOf, key)
    ensures var bs := Group(t[..|t| - 1], dayOf);
      var k := DayKey(t[|t| - 1], dayOf);
      bs != [] && Days(bs)[|bs| - 1] != k ==> key(Days(bs)[|bs| - 1]) < key(k)
  {
    var n := |t| - 1;
    var bs := Group(t[..n], dayOf);
    if bs != [] {
      GroupLastDay(t[..n], dayOf);
      assert t[..n][n - 1] == t[n - 1];
      var last := DayKey(t[n - 1], dayOf);
      assert Days(bs)[|bs| - 1] == last;
    }
  }

  /** The days of the sections grow by the day of the last event unless the last section already has it. */
  lemma GroupDaysLast(t: seq<WorkEvent>, dayOf: int -> Day)
    requires t != []
    ensures var bs := Group(t[..|t| - 1], dayOf);
      var k := DayKey(t[|t| - 1], dayOf);
      Days(Group(t, dayOf)) == if bs != [] && Days(bs)[|bs| - 1] == k then Days(bs) else Days(bs) + [k]
  {
    var n := |t| - 1;
    var x := t[n];
    var bs := Group(t[..n], dayOf);
    var k := DayKey(x, dayOf);
    if bs != [] && bs[|bs| - 1].day == k {
      var m := |bs| - 1;
      var g := bs[..m] + [Bucket(bs[m].day, bs[m].events + [x])];
      MergeKeepsDays(bs, x);
      assert Group(t, dayOf) == g;
    } else {
      var g := bs + [Bucket(k, [x])];
      DaysStep(bs, Bucket(k, [x]));
      assert Group(t, dayOf) == g;
    }
  }

  /** Adding an event to the last section leaves the days as they were. */
  lemma MergeKeepsDays(bs: seq<Bucket>, x: WorkEvent)
    requires bs != []
    ensures var m := |bs| - 1;
      Days(bs[..m] + [Bucket(bs[m].day, bs[m].events + [x])]) == Days(bs)
  {
    var m := |bs| - 1;
    assert bs == bs[..m] + [bs[m]];
    DaysStep(bs[..m], Bucket(bs[m].day, bs[m].events + [x]));
    DaysStep(bs[..m], bs[m]);
  }

  /** The sections are of exactly the days the events start on. */
  lemma {:induction false} GroupDaysMembers(t: seq<WorkEvent>, dayOf: int -> Day)
    ensures forall k :: k in Days(Group(t, dayOf)) <==> k in DayKeys(t, dayOf)
  {
    if t != [] {
      var n := |t| - 1;
      var bs := Group(t[..n], dayOf);
      GroupDaysMembers(t[..n], dayOf);
      GroupDaysLast(t, dayOf);
      if bs != [] && Days(bs)[|bs| - 1] == DayKey(t[n], dayOf) {
        assert DayKey(t[n], dayOf) in Days(bs);
      }
    }
  }

  lemma {:induction false} OnDayConcat(a: seq<WorkEvent>, b: seq<WorkEvent>, k: string, dayOf: int -> Day)
    ensures OnDay(a + b, k, dayOf) == OnDay(a, k, dayOf) + OnDay(b, k, dayOf)
    decreases |b|
  {
    if b == [] {
      assert a + b == a;
    } else {
      var n := |b| - 1;
      assert (a + b)[..|a + b| - 1] == a + b[..n];
      OnDayConcat(a, b[..n], k, dayOf);
    }
  }

  /** Of events all of one day, that day keeps all and any other day none. */
  lemma {:induction false} OnDayOfRun(es: seq<WorkEvent>, day: string, k: string, dayOf: int -> Day)
    requires forall e :: e in es ==> DayKey(e, dayOf) == day
    ensures OnDay(es, k, dayOf) == if k == day then es else []
  {
    if es != [] {
      var n := |es| - 1;
      assert es[n] in es;
      forall e | e in es[..n] ensures DayKey(e, dayOf) == day {
        assert e in es;
      }
      OnDayOfRun(es[..n], day, k, dayOf);
      assert es == es[..n] + [es[n]];
    }
  }

  lemma RunsPrefix(bs: seq<Bucket>, dayOf: int -> Day)
    requires bs != [] && Runs(bs, dayOf)
    ensures Runs(bs[..|bs| - 1], dayOf)
  {
    var pre := bs[..|bs| - 1];
    forall j | 0 <= j < |pre| ensures pre[j] == bs[j] {
    }
  }

  /** A day without a section has no events. */
  lemma {:induction false} OnDayAbsent(bs: seq<Bucket>, k: string, dayOf: int -> Day)
    requires Runs(bs, dayOf)
    requires forall i :: 0 <= i < |bs| ==> bs[i].day != k
    ensures OnDay(Flatten(bs), k, dayOf) == []
  {
    if bs != [] {
      var m := |bs| - 1;
      var pre := bs[..m];
      var b := bs[m];
      LastSplit(bs);
      FlattenStep(pre, b);
      RunsPrefix(bs, dayOf);
      assert forall i :: 0 <= i < m ==> pre[i] == bs[i];
      OnDayAbsent(pre, k, dayOf);
      OnDayConcat(Flatten(pre), b.events, k, dayOf);
      OnDayOfRun(b.events, b.day, k, dayOf);
      assert OnDay(Flatten(bs), k, dayOf) == [] + [];
    }
  }

  /** When the sections are of different days, the events of a day are those of its section. */
  lemma {:induction false} OnDayFlatten(bs: seq<Bucket>, j: nat, dayOf: int -> Day)
    requires Runs(bs, dayOf)
    requires forall i, j :: 0 <= i < j < |bs| ==> bs[i].day != bs[j].day
    requires j < |bs|
    ensures OnDay(Flatten(bs), bs[j].day, dayOf) == bs[j].events
  {
    var m := |bs| - 1;
    var pre := bs[..m];
    var b := bs[m];
    var k := bs[j].day;
    LastSplit(bs);
    FlattenStep(pre, b);
    DistinctPrefix(bs, dayOf);
    OnDayConcat(Flatten(pre), b.events, k, dayOf);
    OnDayOfRun(b.events, b.day, k, dayOf);
    if j == m {
      OnDayAbsent(pre, k, dayOf);
      assert OnDay(Flatten(bs), k, dayOf) == [] + b.events;
    } else {
      OnDayFlatten(pre, j, dayOf);
      assert OnDay(Flatten(bs), k, dayOf) == bs[j].events + [];
    }
  }

  lemma DistinctPrefix(bs: seq<Bucket>, dayOf: int -> Day)
    requires bs != [] && Runs(bs, dayOf)
    requires forall i, j :: 0 <= i < j < |bs| ==> bs[i].day != bs[j].day
    ensures var pre := bs[..|bs| - 1];
      && Runs(pre, dayOf)
      && (forall i, j :: 0 <= i < j < |pre| ==> pre[i].day != pre[j].day)
      && (forall i :: 0 <= i < |pre| ==> pre[i].day != bs[|bs| - 1].day)
  {
    RunsPrefix(bs, dayOf);
    var pre := bs[..|bs| - 1];
    assert forall i :: 0 <= i < |pre| ==> pre[i] == bs[i];
  }
}
