/**
 * Calendar days as the report sees them. The time-zone library that maps an
 * instant to a day is a parameter `dayOf: int -> Day` (instants are
 * milliseconds since the epoch); this module gives the zero-padded
 * "dd.MM.yyyy" day key and the chronological sort key that the summary report
 * derives from it by turning "dd.MM.yyyy" into "yyyy-MM-dd" and parsing that.
 */
module Calendar {
  import opened Text
  import opened Wrappers

  datatype Date = Date(year: int, month: int, day: int)

  /** A date whose fields print as two, two and four digits. */
  predicate ValidDate(d: Date) {
    0 <= d.year <= 9999 && 1 <= d.month <= 12 && 1 <= d.day <= 31
  }

  type Day = d: Date | ValidDate(d) witness Date(1970, 1, 1)

  /** Chronological (year, month, day) order. */
  predicate Before(a: Date, b: Date) {
    || a.year < b.year
    || (a.year == b.year && a.month < b.month)
    || (a.year == b.year && a.month == b.month && a.day < b.day)
  }

  /**
   * A number per date that increases with the date; it stands for the timestamp
   * that `new Date("yyyy-MM-dd")` yields, which orders days the same way.
   */
  function Ordinal(d: Date): int {
    d.year * 372 + (d.month - 1) * 31 + (d.day - 1)
  }

  lemma OrdinalOrder(a: Day, b: Day)
    ensures Before(a, b) <==> Ordinal(a) < Ordinal(b)
    ensures Ordinal(a) == Ordinal(b) <==> a == b
  {
    if a.year < b.year {
      assert Ordinal(a) <= a.year * 372 + 371 < b.year * 372 <= Ordinal(b);
    } else if b.year < a.year {
      assert Ordinal(b) <= b.year * 372 + 371 < a.year * 372 <= Ordinal(a);
    }
  }

  /** An instant-to-day function that never goes back in time. */
  ghost predicate Monotone(dayOf: int -> Day) {
    forall t, u :: t <= u ==> Ordinal(dayOf(t)) <= Ordinal(dayOf(u))
  }

  /** The "dd.MM.yyyy" rendering of a day. */
  function FormatDay(d: Day): (s: string)
    ensures |s| == 10 && s[2] == '.' && s[5] == '.'
    ensures forall i :: 0 <= i < 10 && i != 2 && i != 5 ==> IsDigit(s[i])
  {
    Pad(d.day, 2) + "." + Pad(d.month, 2) + "." + Pad(d.year, 4)
  }

  /** Distinct days have distinct keys. */
  lemma FormatDayInjective(a: Day, b: Day)
    requires FormatDay(a) == FormatDay(b)
    ensures a == b
  {
    var s := FormatDay(a);
    assert Pow10(2) == 100 && Pow10(4) == 10000 by {
      assert Pow10(1) == 10;
      assert Pow10(3) == 1000;
    }
    assert s[..2] == Pad(a.day, 2) == Pad(b.day, 2);
    assert s[3..5] == Pad(a.month, 2) == Pad(b.month, 2);
    assert s[6..] == Pad(a.year, 4) == Pad(b.year, 4);
    PadInjective(a.day, b.day, 2);
    PadInjective(a.month, b.month, 2);
    PadInjective(a.year, b.year, 4);
  }

  /** The comparator's rewriting of a key: split at '.', reverse the parts, join them with '-'. */
  function IsoKey(key: string): string {
    Join(Reverse(Split(key, '.')), '-')
  }

  /** The "yyyy-MM-dd" rendering of a day. */
  function FormatIso(d: Day): string {
    Pad(d.year, 4) + "-" + Pad(d.month, 2) + "-" + Pad(d.day, 2)
  }

  /**
   * `new Date(s)` for a date-only string: four, two and two digits separated by
   * '-', with a month and day in range; anything else is an invalid date.
   */
  function ParseIsoDate(s: string): (r: Option<Date>)
    ensures r.Some? ==> ValidDate(r.value)
  {
    if |s| == 10 && s[4] == '-' && s[7] == '-'
       && forall i :: 0 <= i < 10 && i != 4 && i != 7 ==> IsDigit(s[i])
    then
      var d := Date(ParseNat(s[..4]), ParseNat(s[5..7]), ParseNat(s[8..]));
      assert ParseNat(s[..4]) <= 9999 by { ParseNatBound(s[..4]); }
      if 1 <= d.month <= 12 && 1 <= d.day <= 31 then Some(d) else None
    else None
  }

  lemma {:induction false} ParseNatBound(s: string)
    requires forall i :: 0 <= i < |s| ==> IsDigit(s[i])
    ensures ParseNat(s) < Pow10(|s|)
  {
    if s != [] {
      ParseNatBound(s[..|s| - 1]);
    }
  }

  /**
   * The comparator of the summary report: a day key is compared by the date its
   * "yyyy-MM-dd" form parses to (-1 stands for an invalid date).
   */
  function SortKey(key: string): int {
    match ParseIsoDate(IsoKey(key))
    case Some(d) => Ordinal(d)
    case None => -1
  }

  /** Splitting "dd.MM.yyyy" at '.', reversing and joining with '-' gives "yyyy-MM-dd". */
  lemma IsoKeyOfFormatDay(d: Day)
    ensures IsoKey(FormatDay(d)) == FormatIso(d)
  {
    var dd, mm, yyyy := Pad(d.day, 2), Pad(d.month, 2), Pad(d.year, 4);
    NoDot(dd);
    NoDot(mm);
    NoDot(yyyy);
    assert FormatDay(d) == dd + ['.'] + mm + ['.'] + yyyy;
    SplitThree(dd, mm, yyyy, '.');
    ReverseThree(dd, mm, yyyy);
    JoinThree(yyyy, mm, dd, '-');
    assert FormatIso(d) == yyyy + ['-'] + mm + ['-'] + dd;
  }

  lemma NoDot(s: string)
    requires forall i :: 0 <= i < |s| ==> IsDigit(s[i])
    ensures '.' !in s
  {
  }

  /** The date parsed back from a formatted key is the day itself. */
  lemma ParseFormatIso(d: Day)
    ensures ParseIsoDate(FormatIso(d)) == Some(d)
  {
    var s := FormatIso(d);
    assert Pow10(2) == 100 && Pow10(4) == 10000 by {
      assert Pow10(1) == 10;
      assert Pow10(3) == 1000;
    }
    assert s[..4] == Pad(d.year, 4);
    assert s[5..7] == Pad(d.month, 2);
    assert s[8..] == Pad(d.day, 2);
    ParsePad(d.year, 4);
    ParsePad(d.month, 2);
    ParsePad(d.day, 2);
  }

  /** Sorting formatted keys with the summary report's comparator sorts the days chronologically. */
  lemma SortKeyOfFormatDay(d: Day)
    ensures SortKey(FormatDay(d)) == Ordinal(d)
  {
    IsoKeyOfFormatDay(d);
    ParseFormatIso(d);
  }

  /** On formatted keys the sort key is one-to-one and follows the calendar. */
  lemma SortKeyOrder(a: Day, b: Day)
    ensures SortKey(FormatDay(a)) < SortKey(FormatDay(b)) <==> Before(a, b)
    ensures SortKey(FormatDay(a)) == SortKey(FormatDay(b)) <==> a == b
  {
    SortKeyOfFormatDay(a);
    SortKeyOfFormatDay(b);
    OrdinalOrder(a, b);
  }
}
