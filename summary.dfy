/**
 * The minimal report: the total hours, a header, and one row per day with
 * that day's hours, the days in calendar order.
 */
module Summary {
  import opened Calendar
  import opened Sorting
  import opened Events
  import opened Report
  import opened Seqs

  /**
   * The days in the order of the report's comparator, which turns
   * "dd.MM.yyyy" into "yyyy-MM-dd" and compares the dates it denotes.
   */
  function SortDays(keys: seq<string>): (ds: seq<string>)
    ensures forall k :: k in ds <==> k in keys
  {
    var r := StableSort(keys, SortKey);
    assert forall k :: k in r <==> k in multiset(r);
    r
  }

  /** The days of the events in the order the minimal report lists them. */
  function SortedDays(es: seq<WorkEvent>, dayOf: int -> Day): seq<string> {
    SortDays(DayKeys(es, dayOf))
  }

  function DayRows(ds: seq<string>, es: seq<WorkEvent>, dayOf: int -> Day): (r: seq<Row>)
    ensures |r| == |ds|
    ensures forall i :: 0 <= i < |ds| ==> r[i] == SummaryDayRow(ds[i], DayTotal(es, ds[i], dayOf))
  {
    if ds == [] then []
    else
      var n := |ds| - 1;
      var rest := DayRows(ds[..n], es, dayOf);
      assert forall i :: 0 <= i < n ==> ds[..n][i] == ds[i];
      rest + [SummaryDayRow(ds[n], DayTotal(es, ds[n], dayOf))]
  }

  /** The rows of the minimal report. */
  function SummaryRows(es: seq<WorkEvent>, dayOf: int -> Day): seq<Row> {
    [TotalRow(Total(es)), SummaryHeaderRow] + DayRows(SortedDays(es, dayOf), es, dayOf)
  }

  /**
   * Builds the minimal report: a dictionary from day to hours, filled in
   * event order, then the total of its values and one row per day in sorted
   * order.
   */
  method GenerateMinimalReport(events: seq<WorkEvent>, dayOf: int -> Day) returns (rows: seq<Row>)
    ensures rows == SummaryRows(events, dayOf)
  {
    var dayMap, keys := CollectDays(events, dayOf);
    var sortedDays := SortDays(keys);
    var totalHours := AddValues(keys, dayMap);
    ValuesAreDays(keys, dayMap, events, dayOf);
    TotalByDays(events, dayOf);
    var head := [TotalRow(totalHours), SummaryHeaderRow];
    rows := head;
    for j := 0 to |sortedDays|
      invariant rows == head + DayRows(sortedDays[..j], events, dayOf)
    {
      var day := sortedDays[j];
      var row := SummaryDayRow(day, dayMap[day]);
      DayRowsStep(sortedDays, j, events, dayOf);
      Assoc(head, DayRows(sortedDays[..j], events, dayOf), [row]);
      rows := rows + [row];
    }
    assert sortedDays[..|sortedDays|] == sortedDays;
  }

  lemma DayRowsStep(ds: seq<string>, j: nat, es: seq<WorkEvent>, dayOf: int -> Day)
    requires j < |ds|
    ensures DayRows(ds[..j + 1], es, dayOf) == DayRows(ds[..j], es, dayOf) + [SummaryDayRow(ds[j], DayTotal(es, ds[j], dayOf))]
  {
    assert ds[..j + 1][..j] == ds[..j];
  }

  /** `dayMap` holds the hours of each day of `es`, and `keys` lists those days in order of first appearance. */
  ghost predicate Collected(dayMap: map<string, real>, keys: seq<string>, es: seq<WorkEvent>, dayOf: int -> Day) {
    && keys == DayKeys(es, dayOf)
    && (forall k :: k in dayMap <==> k in keys)
    && (forall k :: k in dayMap ==> dayMap[k] == DayTotal(es, k, dayOf))
  }

  /**
   * The dictionary from day to hours, filled event by event, together with
   * its keys in insertion order (the order of `Object.keys`).
   */
  method CollectDays(events: seq<WorkEvent>, dayOf: int -> Day) returns (dayMap: map<string, real>, keys: seq<string>)
    ensures keys == DayKeys(events, dayOf)
    ensures forall k :: k in dayMap <==> k in keys
    ensures forall k :: k in dayMap ==> dayMap[k] == DayTotal(events, k, dayOf)
  {
    dayMap := map[];
    keys := [];
    for i := 0 to |events|
      invariant Collected(dayMap, keys, events[..i], dayOf)
    {
      dayMap, keys := CollectEvent(events[..i], events[i], dayMap, keys, dayOf);
      PrefixStep(events, i);
    }
    assert events[..|events|] == events;
  }

  /** One iteration of the loop of `CollectDays`: the hours of `e` go to its day. */
  method CollectEvent(prefix: seq<WorkEvent>, e: WorkEvent, dayMap: map<string, real>, keys: seq<string>, dayOf: int -> Day)
    returns (dayMap': map<string, real>, keys': seq<string>)
    requires Collected(dayMap, keys, prefix, dayOf)
    ensures Collected(dayMap', keys', prefix + [e], dayOf)
  {
    var day := DayKey(e, dayOf);
    // a day without an entry yet starts from zero hours
    var before := if day in dayMap then dayMap[day] else 0.0;
    keys' := if day in dayMap then keys else keys + [day];
    dayMap' := dayMap[day := before + e.duration];
    CollectStep(dayMap, keys, prefix, e, before, dayOf);
  }

  /** The hours of one more event added to its day keep the dictionary and its keys up to date. */
  lemma CollectStep(dayMap: map<string, real>, keys: seq<string>, prefix: seq<WorkEvent>, e: WorkEvent, before: real, dayOf: int -> Day)
    requires Collected(dayMap, keys, prefix, dayOf)
    requires before == if DayKey(e, dayOf) in dayMap then dayMap[DayKey(e, dayOf)] else 0.0
    ensures Collected(dayMap[DayKey(e, dayOf) := before + e.duration],
                      if DayKey(e, dayOf) in dayMap then keys else keys + [DayKey(e, dayOf)], prefix + [e], dayOf)
  {
    var day := DayKey(e, dayOf);
    var dayMap' := dayMap[day := before + e.duration];
    var keys' := if day in dayMap then keys else keys + [day];
    if day !in dayMap {
      AbsentDay(prefix, day, dayOf);
    }
    DayKeysExtend(prefix, e, dayOf);
    assert keys' == DayKeys(prefix + [e], dayOf);
    assert forall k :: k in dayMap' <==> k in keys';
    assert before == DayTotal(prefix, day, dayOf);
    forall k | k in dayMap' ensures dayMap'[k] == DayTotal(prefix + [e], k, dayOf) {
      CollectValue(dayMap, prefix, e, before, k, dayOf);
    }
    assert Collected(dayMap', keys', prefix + [e], dayOf);
  }

  /** The value under one key after the update, from the value before it. */
  lemma CollectValue(dayMap: map<string, real>, prefix: seq<WorkEvent>, e: WorkEvent, before: real, k: string, dayOf: int -> Day)
    requires k in dayMap ==> dayMap[k] == DayTotal(prefix, k, dayOf)
    requires before == DayTotal(prefix, DayKey(e, dayOf), dayOf)
    ensures k in dayMap[DayKey(e, dayOf) := before + e.duration] ==>
      dayMap[DayKey(e, dayOf) := before + e.duration][k] == DayTotal(prefix + [e], k, dayOf)
  {
    DayTotalStep(prefix, e, k, dayOf);
  }

  /** One more event: its day joins the list if it is new. */
  lemma DayKeysExtend(a: seq<WorkEvent>, e: WorkEvent, dayOf: int -> Day)
    ensures DayKeys(a + [e], dayOf)
         == DayKeys(a, dayOf) + (if DayKey(e, dayOf) in DayKeys(a, dayOf) then [] else [DayKey(e, dayOf)])
  {
    assert (a + [e])[..|a|] == a;
  }

  /** One more event: its hours go to its own day alone. */
  lemma DayTotalStep(a: seq<WorkEvent>, e: WorkEvent, k: string, dayOf: int -> Day)
    ensures DayTotal(a + [e], k, dayOf) == DayTotal(a, k, dayOf) + (if DayKey(e, dayOf) == k then e.duration else 0.0)
  {
    OnDayAppend(a, e, k, dayOf);
    TotalAppend(OnDay(a, k, dayOf), if DayKey(e, dayOf) == k then [e] else []);
    TotalSingle(e);
  }

  /** The sum of the values stored under `keys`, in that order. */
  function ValuesSum(keys: seq<string>, m: map<string, real>): real
    requires forall k :: k in keys ==> k in m
  {
    if keys == [] then 0.0 else ValuesSum(keys[..|keys| - 1], m) + m[keys[|keys| - 1]]
  }

  /** Adds up the dictionary's values, starting from zero, in the order of its keys. */
  method AddValues(keys: seq<string>, m: map<string, real>) returns (total: real)
    requires forall k :: k in keys ==> k in m
    ensures total == ValuesSum(keys, m)
  {
    total := 0.0;
    for j := 0 to |keys|
      invariant total == ValuesSum(keys[..j], m)
    {
      assert keys[..j + 1][..j] == keys[..j];
      total := total + m[keys[j]];
    }
    assert keys[..|keys|] == keys;
  }

  lemma {:induction false} ValuesAreDays(keys: seq<string>, m: map<string, real>, es: seq<WorkEvent>, dayOf: int -> Day)
    requires forall k :: k in keys ==> k in m && m[k] == DayTotal(es, k, dayOf)
    ensures ValuesSum(keys, m) == SumDays(keys, es, dayOf)
  {
    if keys != [] {
      var n := |keys| - 1;
      assert forall k :: k in keys[..n] ==> k in keys;
      ValuesAreDays(keys[..n], m, es, dayOf);
    }
  }

  /** Two listed days with the same sort key are the same day. */
  lemma SortKeyInjectiveOnDays(es: seq<WorkEvent>, dayOf: int -> Day, k1: string, k2: string)
    requires k1 in DayKeys(es, dayOf) && k2 in DayKeys(es, dayOf)
    requires SortKey(k1) == SortKey(k2)
    ensures k1 == k2
  {
    DayKeysMembers(es, dayOf);
    var e1 :| e1 in es && DayKey(e1, dayOf) == k1;
    var e2 :| e2 in es && DayKey(e2, dayOf) == k2;
    SortKeyOrder(dayOf(e1.startTime), dayOf(e2.startTime));
  }

  /** The listed days strictly increase, each day once, and they are the days of the events. */
  lemma SortedDaysAscending(es: seq<WorkEvent>, dayOf: int -> Day)
    ensures StrictlySorted(SortedDays(es, dayOf), SortKey)
    ensures forall e :: e in es ==> DayKey(e, dayOf) in SortedDays(es, dayOf)
    ensures forall k :: k in SortedDays(es, dayOf) ==> exists e :: e in es && DayKey(e, dayOf) == k
  {
    var ks := DayKeys(es, dayOf);
    var ds := SortedDays(es, dayOf);
    assert ds == StableSort(ks, SortKey);
    MultisetDistinct(ks, ds);
    forall i, j | 0 <= i < |ds| && 0 <= j < |ds| && SortKey(ds[i]) == SortKey(ds[j]) ensures ds[i] == ds[j] {
      SortKeyInjectiveOnDays(es, dayOf, ds[i], ds[j]);
    }
    SortedDistinctStrict(ds, SortKey);
    DayKeysMembers(es, dayOf);
  }

  /**
   * The minimal report lists the day of one event before the day of another
   * exactly when the first day comes earlier in the calendar.
   */
  lemma SummaryChronological(es: seq<WorkEvent>, dayOf: int -> Day, e1: WorkEvent, e2: WorkEvent, i: nat, j: nat)
    requires e1 in es && e2 in es
    requires i < |SortedDays(es, dayOf)| && SortedDays(es, dayOf)[i] == DayKey(e1, dayOf)
    requires j < |SortedDays(es, dayOf)| && SortedDays(es, dayOf)[j] == DayKey(e2, dayOf)
    ensures i < j <==> Before(dayOf(e1.startTime), dayOf(e2.startTime))
  {
    SortedDaysAscending(es, dayOf);
    SortKeyOrder(dayOf(e1.startTime), dayOf(e2.startTime));
    var ds := SortedDays(es, dayOf);
    if j < i {
      assert SortKey(ds[j]) < SortKey(ds[i]);
    }
  }

  lemma {:induction false} SumDaysAppend(a: seq<string>, b: seq<string>, es: seq<WorkEvent>, dayOf: int -> Day)
    ensures SumDays(a + b, es, dayOf) == SumDays(a, es, dayOf) + SumDays(b, es, dayOf)
    decreases |b|
  {
    if b != [] {
      var n := |b| - 1;
      assert (a + b)[..|a + b| - 1] == a + b[..n];
      SumDaysAppend(a, b[..n], es, dayOf);
    } else {
      assert a + b == a;
    }
  }

  /** The sum over days does not depend on the order of the days. */
  lemma {:induction false} SumDaysPermutation(a: seq<string>, b: seq<string>, es: seq<WorkEvent>, dayOf: int -> Day)
    requires multiset(a) == multiset(b)
    ensures SumDays(a, es, dayOf) == SumDays(b, es, dayOf)
    decreases |a|
  {
    if a == [] {
      assert |b| == |multiset(b)| == 0;
    } else {
      var n := |a| - 1;
      var x := a[n];
      assert a == a[..n] + [x];
      assert x in multiset(b);
      var j :| 0 <= j < |b| && b[j] == x;
      var rest := b[..j] + b[j + 1..];
      RemoveOne(a, b, j);
      assert b == b[..j] + [x] + b[j + 1..];
      SumDaysPermutation(a[..n], rest, es, dayOf);
      SumDaysAppend(b[..j] + [x], b[j + 1..], es, dayOf);
      SumDaysAppend(b[..j], [x], es, dayOf);
      SumDaysAppend(b[..j], b[j + 1..], es, dayOf);
      assert [x][..0] == [];
    }
  }

  /** The total row is the sum of the hours in the day rows. */
  lemma SummaryTotalIsSumOfDays(es: seq<WorkEvent>, dayOf: int -> Day)
    ensures SumDays(SortedDays(es, dayOf), es, dayOf) == Total(es)
  {
    SumDaysPermutation(SortedDays(es, dayOf), DayKeys(es, dayOf), es, dayOf);
    TotalByDays(es, dayOf);
  }

  /** Without events the report is the total row, zero, and the header. */
  lemma SummaryOfNoEvents(dayOf: int -> Day)
    ensures SummaryRows([], dayOf) == [TotalRow(0.0), SummaryHeaderRow]
  {
    assert DayKeys([], dayOf) == [];
    assert SortedDays([], dayOf) == [];
  }

  lemma DayRowsAgree(ds: seq<string>, a: seq<WorkEvent>, b: seq<WorkEvent>, dayOf: int -> Day)
    requires forall k :: DayTotal(a, k, dayOf) == DayTotal(b, k, dayOf)
    ensures DayRows(ds, a, dayOf) == DayRows(ds, b, dayOf)
  {
  }

  /** The minimal report does not depend on the order in which the calendar returns the events. */
  lemma SummaryOrderIndependent(a: seq<WorkEvent>, b: seq<WorkEvent>, dayOf: int -> Day)
    requires multiset(a) == multiset(b)
    ensures SummaryRows(a, dayOf) == SummaryRows(b, dayOf)
  {
    TotalPermutation(a, b);
    SortedDaysAscending(a, dayOf);
    SortedDaysAscending(b, dayOf);
    forall k ensures k in SortedDays(a, dayOf) <==> k in SortedDays(b, dayOf) {
      forall e | e in a ensures e in b {
        assert e in multiset(b);
      }
      forall e | e in b ensures e in a {
        assert e in multiset(a);
      }
    }
    StrictlySortedUnique(SortedDays(a, dayOf), SortedDays(b, dayOf), SortKey);
    forall k ensures DayTotal(a, k, dayOf) == DayTotal(b, k, dayOf) {
      OnDayPermutation(a, b, k, dayOf);
    }
    DayRowsAgree(SortedDays(a, dayOf), a, b, dayOf);
  }
}
