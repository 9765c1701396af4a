/**
 * The rows of the two HTML tables. A report is the sequence of its rows; the
 * markup around each row is fixed text and is not modelled, except the one
 * transformation of event data it performs: line breaks in a description are
 * shown as HTML break tags.
 */
module Report {
  import opened Events
  import opened Description
  import opened Wrappers

  datatype Row =
    | TotalRow(hours: real)                  // "Total Work Hours: …" heading both tables
    | DateRow(day: string)                   // "Date: dd.MM.yyyy" opening a day (detailed)
    | ColumnHeaderRow                        // "Event #, Title, …" under each date (detailed)
    | EventRow(index: nat, event: WorkEvent) // one event, numbered from 1 within its day
    | SubtotalRow(hours: real)               // "Daily Work Hours Summary: …" closing a day
    | DividerRow                             // the rule between two days (detailed)
    | SummaryHeaderRow                       // "Date, Work Hours" (summary)
    | SummaryDayRow(day: string, hours: real) // one day and its hours (summary)

  /** The description cell: every line break becomes a `<br>` tag. */
  function BrLines(s: string): (r: string)
    ensures '\n' !in r
    ensures '\n' !in s ==> r == s
    ensures |r| == |s| + 3 * LineBreaks(s)
  {
    if s == [] then [] else (if s[0] == '\n' then "<br>" else [s[0]]) + BrLines(s[1..])
  }

  function LineBreaks(s: string): nat {
    if s == [] then 0 else (if s[0] == '\n' then 1 else 0) + LineBreaks(s[1..])
  }

  lemma {:induction false} BrLinesAppend(a: string, b: string)
    ensures BrLines(a + b) == BrLines(a) + BrLines(b)
  {
    if a != [] {
      assert (a + b)[1..] == a[1..] + b;
      BrLinesAppend(a[1..], b);
    } else {
      assert a + b == b;
    }
  }

  /**
   * Each character of the description is rendered on its own: a line break as
   * the four characters `<br>`, any other character as itself. With
   * `BrLines([]) == []` this determines the rendering of every text.
   */
  lemma BrLinesAt(a: string, c: char, b: string)
    ensures BrLines(a + [c] + b) == BrLines(a) + (if c == '\n' then "<br>" else [c]) + BrLines(b)
  {
    var shown := if c == '\n' then "<br>" else [c];
    assert BrLines([c]) == shown by {
      assert [c][1..] == [];
    }
    BrLinesAppend(a, [c]);
    BrLinesAppend(a + [c], b);
  }

  /** A line break between two pieces of text becomes a break tag between their renderings. */
  lemma BrLinesBreak(a: string, b: string)
    ensures BrLines(a + "\n" + b) == BrLines(a) + "<br>" + BrLines(b)
  {
    BrLinesAt(a, '\n', b);
  }

  /**
   * A description made of a list of plain items shows, once cleaned, one
   * bullet per item and a break tag after each.
   */
  lemma {:induction false} BulletedListCell(items: seq<string>)
    requires forall i :: 0 <= i < |items| ==> '<' !in items[i] && '\n' !in items[i]
    ensures BrLines(CleanHtmlDescription(Some(Wrapped(items, "<li>", "</li>")))) == Wrapped(items, Bullet, "<br>")
  {
    forall i | 0 <= i < |items| ensures '<' !in items[i] {
    }
    CleanListItems(items);
    BrLinesWrapped(items);
  }

  lemma {:induction false} BrLinesWrapped(items: seq<string>)
    requires forall i :: 0 <= i < |items| ==> '\n' !in items[i]
    ensures BrLines(Wrapped(items, Bullet, "\n")) == Wrapped(items, Bullet, "<br>")
  {
    if items != [] {
      var rest := Wrapped(items[1..], Bullet, "\n");
      assert Wrapped(items, Bullet, "\n") == Bullet + items[0] + "\n" + rest;
      BrLinesAppend(Bullet + items[0] + "\n", rest);
      BrLinesAppend(Bullet + items[0], "\n");
      BrLinesAppend(Bullet, items[0]);
      assert BrLines("\n") == "<br>";
      assert '\n' !in Bullet;
      BrLinesWrapped(items[1..]);
    }
  }
}
