/**
 * Work events: the calendar entries kept by the colour filter, with their
 * description cleaned and their duration in hours, and the sums of hours
 * both reports print.
 */
module Events {
  import opened Wrappers
  import opened Calendar
  import opened Description
  import opened Sorting
  import opened Seqs

  /** A calendar entry as the calendar service hands it over; times in milliseconds. */
  datatype RawEvent = RawEvent(title: string, description: Option<string>, startTime: int, endTime: int, color: string)

  /** An entry kept for the report. */
  datatype WorkEvent = WorkEvent(title: string, description: string, startTime: int, endTime: int, duration: real)

  /** Milliseconds in an hour: 1000 * 60 * 60. */
  const MsPerHour: real := 3600000.0

  /** The length of an interval in hours, negative when it ends before it starts. */
  function Hours(startTime: int, endTime: int): (h: real)
    ensures h * MsPerHour == (endTime - startTime) as real
    ensures h >= 0.0 <==> startTime <= endTime
  {
    (endTime - startTime) as real / MsPerHour
  }

  function Normalize(e: RawEvent): WorkEvent {
    WorkEvent(e.title, CleanHtmlDescription(e.description), e.startTime, e.endTime, Hours(e.startTime, e.endTime))
  }

  /** The entries whose colour is a key of `colors`, in calendar order, normalized. */
  function FilterEvents(raw: seq<RawEvent>, colors: map<string, string>): (r: seq<WorkEvent>)
    ensures |r| <= |raw|
  {
    if raw == [] then []
    else
      var e := raw[|raw| - 1];
      FilterEvents(raw[..|raw| - 1], colors) + (if e.color in colors then [Normalize(e)] else [])
  }

  /** The positions of the entries the filter keeps, ascending: exactly those with a listed colour. */
  function Selected(raw: seq<RawEvent>, colors: map<string, string>): (idx: seq<nat>)
    ensures forall j :: 0 <= j < |idx| ==> idx[j] < |raw|
    ensures forall j, k :: 0 <= j < k < |idx| ==> idx[j] < idx[k]
    ensures forall i :: 0 <= i < |raw| ==> (i in idx <==> raw[i].color in colors)
  {
    if raw == [] then []
    else
      var n := |raw| - 1;
      var rest := Selected(raw[..n], colors);
      assert forall i :: 0 <= i < n ==> raw[..n][i] == raw[i];
      rest + (if raw[n].color in colors then [n] else [])
  }

  /** The filter's output is the normalized entries at the selected positions, in order. */
  lemma {:induction false} FilterSelected(raw: seq<RawEvent>, colors: map<string, string>)
    ensures |FilterEvents(raw, colors)| == |Selected(raw, colors)|
    ensures forall j :: 0 <= j < |Selected(raw, colors)| ==>
      FilterEvents(raw, colors)[j] == Normalize(raw[Selected(raw, colors)[j]])
  {
    if raw != [] {
      var n := |raw| - 1;
      FilterSelected(raw[..n], colors);
      var idx := Selected(raw[..n], colors);
      forall j | 0 <= j < |idx| ensures raw[..n][idx[j]] == raw[idx[j]] {
      }
    }
  }

  /** When every colour is listed the filter keeps every entry. */
  lemma {:induction false} FilterKeepsAll(raw: seq<RawEvent>, colors: map<string, string>)
    requires forall i :: 0 <= i < |raw| ==> raw[i].color in colors
    ensures |FilterEvents(raw, colors)| == |raw|
    ensures forall i :: 0 <= i < |raw| ==> FilterEvents(raw, colors)[i] == Normalize(raw[i])
  {
    if raw != [] {
      var n := |raw| - 1;
      var pre := raw[..n];
      forall i | 0 <= i < n ensures pre[i].color in colors {
        assert pre[i] == raw[i];
      }
      FilterKeepsAll(pre, colors);
      var f := FilterEvents(pre, colors);
      var r := f + [Normalize(raw[n])];
      assert FilterEvents(raw, colors) == r;
      forall i | 0 <= i < |raw| ensures r[i] == Normalize(raw[i]) {
        if i < n {
          assert r[i] == f[i] && pre[i] == raw[i];
        } else {
          assert |f| == n;
          assert r[i] == Normalize(raw[n]);
        }
      }
    }
  }

  /** Filtering a concatenation filters each part. */
  lemma {:induction false} FilterAppend(a: seq<RawEvent>, b: seq<RawEvent>, colors: map<string, string>)
    ensures FilterEvents(a + b, colors) == FilterEvents(a, colors) + FilterEvents(b, colors)
    decreases |b|
  {
    if b != [] {
      var n := |b| - 1;
      assert (a + b)[..|a + b| - 1] == a + b[..n];
      FilterAppend(a, b[..n], colors);
    } else {
      assert a + b == a;
    }
  }

  /** The start time, the key of the detailed report's sort. */
  function StartOf(e: WorkEvent): int {
    e.startTime
  }

  /** The "dd.MM.yyyy" day an event starts on, for a given instant-to-day function. */
  function DayKey(e: WorkEvent, dayOf: int -> Day): string {
    FormatDay(dayOf(e.startTime))
  }

  /** The sum of the durations, added from the first event on. */
  function Total(es: seq<WorkEvent>): real {
    if es == [] then 0.0 else Total(es[..|es| - 1]) + es[|es| - 1].duration
  }

  lemma {:induction false} TotalAppend(a: seq<WorkEvent>, b: seq<WorkEvent>)
    ensures Total(a + b) == Total(a) + Total(b)
    decreases |b|
  {
    if b != [] {
      var n := |b| - 1;
      assert (a + b)[..|a + b| - 1] == a + b[..n];
      TotalAppend(a, b[..n]);
    } else {
      assert a + b == a;
    }
  }

  lemma TotalSingle(e: WorkEvent)
    ensures Total([e]) == e.duration
  {
    assert [e][..0] == [];
  }

  /** The total does not depend on the order of the events. */
  lemma {:induction false} TotalPermutation(a: seq<WorkEvent>, b: seq<WorkEvent>)
    requires multiset(a) == multiset(b)
    ensures Total(a) == Total(b)
    decreases |a|
  {
    if a == [] {
      assert |b| == |multiset(b)| == 0;
    } else {
      var n := |a| - 1;
      var x := a[n];
      assert x in multiset(b);
      var j :| 0 <= j < |b| && b[j] == x;
      var rest := b[..j] + b[j + 1..];
      RemoveOne(a, b, j);
      TotalPermutation(a[..n], rest);
      TotalWithout(b, j);
    }
  }

  /** Taking the last element of `a` and an equal one of `b` leaves equal multisets. */
  lemma RemoveOne<T>(a: seq<T>, b: seq<T>, j: nat)
    requires multiset(a) == multiset(b) && a != []
    requires j < |b| && b[j] == a[|a| - 1]
    ensures multiset(a[..|a| - 1]) == multiset(b[..j] + b[j + 1..])
  {
    var n := |a| - 1;
    var x := a[n];
    assert a == a[..n] + [x];
    assert b == b[..j] + [x] + b[j + 1..];
    assert multiset(b) == multiset(b[..j]) + multiset{x} + multiset(b[j + 1..]);
    assert multiset(a) == multiset(a[..n]) + multiset{x};
    assert multiset(b[..j] + b[j + 1..]) == multiset(b[..j]) + multiset(b[j + 1..]);
    assert multiset(a[..n]) == multiset(a) - multiset{x};
    assert multiset(b[..j] + b[j + 1..]) == multiset(b) - multiset{x};
  }

  /** The total is that of the other events plus the hours of one taken out. */
  lemma TotalWithout(b: seq<WorkEvent>, j: nat)
    requires j < |b|
    ensures Total(b) == Total(b[..j] + b[j + 1..]) + b[j].duration
  {
    var l, x, r := b[..j], b[j], b[j + 1..];
    SplitAt(b, j);
    TotalAppend(l + [x], r);
    TotalAppend(l, [x]);
    TotalAppend(l, r);
    TotalSingle(x);
  }

  /** The events that start on day `k`, in their order. */
  function OnDay(es: seq<WorkEvent>, k: string, dayOf: int -> Day): (r: seq<WorkEvent>)
    ensures |r| <= |es|
  {
    if es == [] then []
    else
      var n := |es| - 1;
      OnDay(es[..n], k, dayOf) + (if DayKey(es[n], dayOf) == k then [es[n]] else [])
  }

  /** The hours of day `k`. */
  function DayTotal(es: seq<WorkEvent>, k: string, dayOf: int -> Day): real {
    Total(OnDay(es, k, dayOf))
  }

  lemma {:induction false} OnDayAppend(a: seq<WorkEvent>, e: WorkEvent, k: string, dayOf: int -> Day)
    ensures OnDay(a + [e], k, dayOf) == OnDay(a, k, dayOf) + (if DayKey(e, dayOf) == k then [e] else [])
  {
    assert (a + [e])[..|a|] == a;
  }

  /** How often each event occurs among the events of one day. */
  lemma {:induction false} OnDayCount(es: seq<WorkEvent>, k: string, dayOf: int -> Day, e: WorkEvent)
    ensures multiset(OnDay(es, k, dayOf))[e] == if DayKey(e, dayOf) == k then multiset(es)[e] else 0
  {
    if es != [] {
      var n := |es| - 1;
      assert es == es[..n] + [es[n]];
      OnDayCount(es[..n], k, dayOf, e);
    }
  }

  /** The events of day `k` are those of the events that start on `k`. */
  lemma OnDayMembers(es: seq<WorkEvent>, k: string, dayOf: int -> Day)
    ensures forall e :: e in OnDay(es, k, dayOf) <==> e in es && DayKey(e, dayOf) == k
  {
    forall e ensures e in OnDay(es, k, dayOf) <==> e in es && DayKey(e, dayOf) == k {
      OnDayCount(es, k, dayOf, e);
    }
  }

  /** The events of a day, and so its hours, do not depend on the order of all events. */
  lemma OnDayPermutation(a: seq<WorkEvent>, b: seq<WorkEvent>, k: string, dayOf: int -> Day)
    requires multiset(a) == multiset(b)
    ensures multiset(OnDay(a, k, dayOf)) == multiset(OnDay(b, k, dayOf))
    ensures DayTotal(a, k, dayOf) == DayTotal(b, k, dayOf)
  {
    forall e ensures multiset(OnDay(a, k, dayOf))[e] == multiset(OnDay(b, k, dayOf))[e] {
      OnDayCount(a, k, dayOf, e);
      OnDayCount(b, k, dayOf, e);
    }
    assert multiset(OnDay(a, k, dayOf)) == multiset(OnDay(b, k, dayOf));
    TotalPermutation(OnDay(a, k, dayOf), OnDay(b, k, dayOf));
  }

  /**
   * The days the events start on, each once, in the order of their first
   * event: the order in which a dictionary keyed by day receives its keys.
   */
  function DayKeys(es: seq<WorkEvent>, dayOf: int -> Day): (ks: seq<string>)
    ensures Distinct(ks)
    ensures |ks| <= |es|
  {
    if es == [] then []
    else
      var n := |es| - 1;
      var rest := DayKeys(es[..n], dayOf);
      var k := DayKey(es[n], dayOf);
      if k in rest then rest else rest + [k]
  }

  /** The listed days are exactly the days some event starts on. */
  lemma {:induction false} DayKeysMembers(es: seq<WorkEvent>, dayOf: int -> Day)
    ensures forall e :: e in es ==> DayKey(e, dayOf) in DayKeys(es, dayOf)
    ensures forall k :: k in DayKeys(es, dayOf) ==> exists e :: e in es && DayKey(e, dayOf) == k
  {
    if es != [] {
      var n := |es| - 1;
      DayKeysMembers(es[..n], dayOf);
      assert es == es[..n] + [es[n]];
      forall k | k in DayKeys(es, dayOf) ensures exists e :: e in es && DayKey(e, dayOf) == k {
        if k in DayKeys(es[..n], dayOf) {
          var e :| e in es[..n] && DayKey(e, dayOf) == k;
          assert e in es;
        } else {
          assert DayKey(es[n], dayOf) == k;
        }
      }
    }
  }

  /** A day that is not listed has no events. */
  lemma AbsentDay(es: seq<WorkEvent>, k: string, dayOf: int -> Day)
    requires k !in DayKeys(es, dayOf)
    ensures OnDay(es, k, dayOf) == []
    ensures DayTotal(es, k, dayOf) == 0.0
  {
    if OnDay(es, k, dayOf) != [] {
      var x := OnDay(es, k, dayOf)[0];
      OnDayMembers(es, k, dayOf);
      assert x in es && DayKey(x, dayOf) == k;
      DayKeysMembers(es, dayOf);
      assert false;
    }
  }

  /** The sum of the hours of each of the days `ks`. */
  function SumDays(ks: seq<string>, es: seq<WorkEvent>, dayOf: int -> Day): real {
    if ks == [] then 0.0 else SumDays(ks[..|ks| - 1], es, dayOf) + DayTotal(es, ks[|ks| - 1], dayOf)
  }

  /** Adding one event to the events adds its duration to the sum over its day, if that is listed once. */
  lemma {:induction false} SumDaysAppendEvent(ks: seq<string>, es: seq<WorkEvent>, e: WorkEvent, dayOf: int -> Day)
    requires Distinct(ks)
    ensures SumDays(ks, es + [e], dayOf) == SumDays(ks, es, dayOf) + (if DayKey(e, dayOf) in ks then e.duration else 0.0)
  {
    if ks != [] {
      var n := |ks| - 1;
      var k := ks[n];
      assert ks == ks[..n] + [k];
      SumDaysAppendEvent(ks[..n], es, e, dayOf);
      OnDayAppend(es, e, k, dayOf);
      TotalAppend(OnDay(es, k, dayOf), if DayKey(e, dayOf) == k then [e] else []);
      if DayKey(e, dayOf) == k {
        TotalSingle(e);
        assert DayKey(e, dayOf) !in ks[..n];
      }
    }
  }

  /** Adding the hours of every day gives the total of all events. */
  lemma {:induction false} TotalByDays(es: seq<WorkEvent>, dayOf: int -> Day)
    ensures SumDays(DayKeys(es, dayOf), es, dayOf) == Total(es)
  {
    if es != [] {
      var n := |es| - 1;
      var a := es[..n];
      var e := es[n];
      var ks := DayKeys(a, dayOf);
      assert es == a + [e];
      TotalByDays(a, dayOf);
      SumDaysAppendEvent(ks, a, e, dayOf);
      TotalStep(a, e);
      if DayKey(e, dayOf) !in ks {
        NewDayTotal(a, e, dayOf);
      }
    }
  }

  lemma TotalStep(a: seq<WorkEvent>, e: WorkEvent)
    ensures Total(a + [e]) == Total(a) + e.duration
  {
    assert (a + [e])[..|a|] == a;
  }

  /** A day no earlier event starts on adds exactly the new event's hours. */
  lemma NewDayTotal(a: seq<WorkEvent>, e: WorkEvent, dayOf: int -> Day)
    requires DayKey(e, dayOf) !in DayKeys(a, dayOf)
    ensures DayKeys(a + [e], dayOf) == DayKeys(a, dayOf) + [DayKey(e, dayOf)]
    ensures SumDays(DayKeys(a + [e], dayOf), a + [e], dayOf)
         == SumDays(DayKeys(a, dayOf), a + [e], dayOf) + e.duration
  {
    var k := DayKey(e, dayOf);
    var ks := DayKeys(a, dayOf);
    assert (a + [e])[..|a|] == a;
    AbsentDay(a, k, dayOf);
    OnDayAppend(a, e, k, dayOf);
    TotalSingle(e);
    assert (ks + [k])[..|ks|] == ks;
  }
}
