/**
 * The description cleaner: a fixed chain of global, case-insensitive regular
 * expression replacements that turns an event's rich-text description into
 * plain text with newlines and bullets. Each regular expression is a `Pattern`
 * with a matcher that gives the length of the match at the start of a string
 * (0 for none); `ReplaceAll` is JavaScript's `String.prototype.replace` with
 * a global pattern: scan left to right, replace each match, resume after it.
 */
module Description {
  import opened Wrappers

  /** The bullet text the cleaner puts in place of `<li>` (a mis-encoded bullet, kept verbatim). */
  const Bullet: string := "\U{E2}\U{20AC}\U{A2} "

  /** ASCII lower-casing: the only case folding the `i` flag does for these ASCII patterns. */
  function LowerAscii(c: char): char {
    if 'A' <= c <= 'Z' then (c as int + 32) as char else c
  }

  predicate SameIgnoringCase(c: char, d: char) {
    LowerAscii(c) == LowerAscii(d)
  }

  /** `s` starts with `t`, letters compared without regard to case. */
  predicate StartsWithIgnoringCase(s: string, t: string) {
    |t| <= |s| && forall i :: 0 <= i < |t| ==> SameIgnoringCase(s[i], t[i])
  }

  /** JavaScript's `\s`: white space and line terminators. */
  predicate IsSpace(c: char) {
    || c == '\t' || c == '\n' || c == '\U{B}' || c == '\U{C}' || c == '\r' || c == ' '
    || c == '\U{A0}' || c == '\U{1680}' || ('\U{2000}' <= c <= '\U{200A}')
    || c == '\U{2028}' || c == '\U{2029}' || c == '\U{202F}' || c == '\U{205F}'
    || c == '\U{3000}' || c == '\U{FEFF}'
  }

  /** Length of the longest prefix of `s` made of white space (`\s*`). */
  function SpaceRun(s: string): (n: nat)
    ensures n <= |s|
    ensures forall i :: 0 <= i < n ==> IsSpace(s[i])
    ensures n < |s| ==> !IsSpace(s[n])
  {
    if s != [] && IsSpace(s[0]) then 1 + SpaceRun(s[1..]) else 0
  }

  /** Length of the longest prefix of `s` without a '>' (`[^>]*`). */
  function NonCloseRun(s: string): (n: nat)
    ensures n <= |s|
    ensures forall i :: 0 <= i < n ==> s[i] != '>'
    ensures n < |s| ==> s[n] == '>'
  {
    if s != [] && s[0] != '>' then 1 + NonCloseRun(s[1..]) else 0
  }

  datatype Pattern =
    | BreakTag          // /<br\s*\/?>/gi
    | SpanOpenTag       // /<span[^>]*>/gi
    | Literal(text: string)  // a fixed tag such as /<\/span>/gi

  /** Every match of the pattern begins with '<'. */
  predicate OpensWithLt(p: Pattern) {
    p.Literal? ==> |p.text| > 0 && p.text[0] == '<'
  }

  /**
   * The length of the match of `p` at the start of `s`, 0 when there is none.
   * Greedy `\s*` and `[^>]*` cannot give back characters that would let the
   * rest match, so the first attempt decides.
   */
  function MatchLength(p: Pattern, s: string): (n: nat)
    ensures n <= |s|
    ensures n > 0 && OpensWithLt(p) ==> s[0] == '<'
    ensures p.Literal? && n > 0 ==> n == |p.text| && StartsWithIgnoringCase(s, p.text)
  {
    match p
    case BreakTag =>
      if StartsWithIgnoringCase(s, "<br") then
        var k := 3 + SpaceRun(s[3..]);
        if k < |s| && s[k] == '>' then k + 1
        else if k + 1 < |s| && s[k] == '/' && s[k + 1] == '>' then k + 2
        else 0
      else 0
    case SpanOpenTag =>
      if StartsWithIgnoringCase(s, "<span") then
        var k := 5 + NonCloseRun(s[5..]);
        if k < |s| then k + 1 else 0
      else 0
    case Literal(t) =>
      if |t| > 0 && StartsWithIgnoringCase(s, t) then |t| else 0
  }

  /** `s.replace(p, rep)` for a global pattern `p`. */
  function ReplaceAll(s: string, p: Pattern, rep: string): string
    decreases |s|
  {
    if s == [] then []
    else
      var n := MatchLength(p, s);
      if n > 0 then rep + ReplaceAll(s[n..], p, rep)
      else [s[0]] + ReplaceAll(s[1..], p, rep)
  }

  /** The seven replacements, in order; a missing description becomes "". */
  function CleanHtmlDescription(html: Option<string>): (r: string)
    ensures html.None? ==> r == ""
    ensures html.Some? && '<' !in html.value ==> r == html.value
  {
    match html
    case None => ""
    case Some(h) =>
      if '<' !in h then
        assert Cleaned(h) == h by { CleanedWithoutTags(h); }
        Cleaned(h)
      else Cleaned(h)
  }

  function Cleaned(h: string): string {
    var itemsOpened := ReplaceAll(Unwrapped(h), Literal("<li>"), Bullet);
    ReplaceAll(itemsOpened, Literal("</li>"), "\n")
  }

  /** The first five replacements: line breaks, then span and list wrappers. */
  function Unwrapped(h: string): string {
    var breaks := ReplaceAll(h, BreakTag, "\n");
    var spansOpened := ReplaceAll(breaks, SpanOpenTag, "");
    var spansClosed := ReplaceAll(spansOpened, Literal("</span>"), "");
    var listsOpened := ReplaceAll(spansClosed, Literal("<ul>"), "");
    ReplaceAll(listsOpened, Literal("</ul>"), "")
  }

  /** Text without a '<' passes through a replacement untouched, and so does what follows it. */
  lemma {:induction false} ReplaceAllPlainPrefix(x: string, rest: string, p: Pattern, rep: string)
    requires OpensWithLt(p)
    requires '<' !in x
    ensures ReplaceAll(x + rest, p, rep) == x + ReplaceAll(rest, p, rep)
    decreases |x|
  {
    if x != [] {
      var s := x + rest;
      assert s[0] == x[0] && s[1..] == x[1..] + rest;
      assert MatchLength(p, s) == 0;
      assert ReplaceAll(s, p, rep) == [s[0]] + ReplaceAll(s[1..], p, rep);
      ReplaceAllPlainPrefix(x[1..], rest, p, rep);
      Regroup(x, ReplaceAll(rest, p, rep));
    } else {
      assert x + rest == rest;
    }
  }

  lemma ReplaceAllPlain(x: string, p: Pattern, rep: string)
    requires OpensWithLt(p)
    requires '<' !in x
    ensures ReplaceAll(x, p, rep) == x
  {
    ReplaceAllPlainPrefix(x, [], p, rep);
    assert x + [] == x;
  }

  lemma CleanedWithoutTags(h: string)
    requires '<' !in h
    ensures Cleaned(h) == h
  {
    ReplaceAllPlain(h, BreakTag, "\n");
    ReplaceAllPlain(h, SpanOpenTag, "");
    ReplaceAllPlain(h, Literal("</span>"), "");
    ReplaceAllPlain(h, Literal("<ul>"), "");
    ReplaceAllPlain(h, Literal("</ul>"), "");
    ReplaceAllPlain(h, Literal("<li>"), Bullet);
    ReplaceAllPlain(h, Literal("</li>"), "\n");
  }

  /** After the line-break step, text without tags is left alone by the rest of the chain. */
  lemma CleanedAfterBreaks(h: string)
    requires '<' !in ReplaceAll(h, BreakTag, "\n")
    ensures Cleaned(h) == ReplaceAll(h, BreakTag, "\n")
  {
    var x := ReplaceAll(h, BreakTag, "\n");
    ReplaceAllPlain(x, SpanOpenTag, "");
    ReplaceAllPlain(x, Literal("</span>"), "");
    ReplaceAllPlain(x, Literal("<ul>"), "");
    ReplaceAllPlain(x, Literal("</ul>"), "");
    ReplaceAllPlain(x, Literal("<li>"), Bullet);
    ReplaceAllPlain(x, Literal("</li>"), "\n");
  }

  lemma {:induction false} SpaceRunOfSpaces(w: string, tail: string)
    requires forall i :: 0 <= i < |w| ==> IsSpace(w[i])
    requires tail != [] && !IsSpace(tail[0])
    ensures SpaceRun(w + tail) == |w|
    decreases |w|
  {
    if w == [] {
      assert w + tail == tail;
    } else {
      assert (w + tail)[1..] == w[1..] + tail;
      SpaceRunOfSpaces(w[1..], tail);
    }
  }

  /**
   * `<br>`, `<BR/>`, `<br  />` and every other spelling the line-break pattern
   * accepts become a single newline.
   */
  lemma CleanBreakTag(b: char, r: char, w: string, slash: bool)
    requires b == 'b' || b == 'B'
    requires r == 'r' || r == 'R'
    requires forall i :: 0 <= i < |w| ==> IsSpace(w[i])
    ensures CleanHtmlDescription(Some(['<', b, r] + w + (if slash then "/>" else ">"))) == "\n"
  {
    var close := if slash then "/>" else ">";
    var t := ['<', b, r] + w + close;
    assert StartsWithIgnoringCase(t, "<br");
    assert t[3..] == w + close;
    SpaceRunOfSpaces(w, close);
    assert MatchLength(BreakTag, t) == |t|;
    assert t[|t|..] == [];
    assert ReplaceAll(t, BreakTag, "\n") == "\n" + ReplaceAll([], BreakTag, "\n");
    CleanedAfterBreaks(t);
  }

  /** The three spellings named by the cleaner's documentation. */
  lemma CleanBreakExamples()
    ensures CleanHtmlDescription(Some("<br>")) == "\n"
    ensures CleanHtmlDescription(Some("<br/>")) == "\n"
    ensures CleanHtmlDescription(Some("<BR />")) == "\n"
  {
    assert ['<', 'b', 'r'] + "" + ">" == "<br>";
    assert ['<', 'b', 'r'] + "" + "/>" == "<br/>";
    assert ['<', 'B', 'R'] + " " + "/>" == "<BR />";
    CleanBreakTag('b', 'r', "", false);
    CleanBreakTag('b', 'r', "", true);
    CleanBreakTag('B', 'R', " ", true);
  }

  /** `open + items[0] + close + open + items[1] + close + ...` */
  function Wrapped(items: seq<string>, open: string, close: string): string {
    if items == [] then [] else open + items[0] + close + Wrapped(items[1..], open, close)
  }

  /**
   * A replacement that maps each opening and closing piece to a fixed text,
   * whatever follows it, maps a wrapped list of tag-free items piece by piece,
   * and then goes on with what follows the list.
   */
  lemma {:induction false} ReplaceAllWrappedThen(items: seq<string>, open: string, close: string,
                                                 p: Pattern, rep: string, open': string, close': string, rest: string)
    requires OpensWithLt(p)
    requires forall i :: 0 <= i < |items| ==> '<' !in items[i]
    requires forall rest :: ReplaceAll(open + rest, p, rep) == open' + ReplaceAll(rest, p, rep)
    requires forall rest :: ReplaceAll(close + rest, p, rep) == close' + ReplaceAll(rest, p, rep)
    ensures ReplaceAll(Wrapped(items, open, close) + rest, p, rep) == Wrapped(items, open', close') + ReplaceAll(rest, p, rep)
  {
    if items == [] {
      assert Wrapped(items, open, close) + rest == rest;
    } else {
      var tail := Wrapped(items[1..], open, close);
      var tail' := Wrapped(items[1..], open', close');
      var after := ReplaceAll(rest, p, rep);
      Regroup5(open, items[0], close, tail, rest);
      Regroup5(open', items[0], close', tail', after);
      var x := items[0] + (close + (tail + rest));
      assert ReplaceAll(open + x, p, rep) == open' + ReplaceAll(x, p, rep);
      ReplaceAllPlainPrefix(items[0], close + (tail + rest), p, rep);
      assert ReplaceAll(close + (tail + rest), p, rep) == close' + ReplaceAll(tail + rest, p, rep);
      ReplaceAllWrappedThen(items[1..], open, close, p, rep, open', close', rest);
    }
  }

  /** The same, for a list that ends the text. */
  lemma ReplaceAllWrapped(items: seq<string>, open: string, close: string,
                          p: Pattern, rep: string, open': string, close': string)
    requires OpensWithLt(p)
    requires forall i :: 0 <= i < |items| ==> '<' !in items[i]
    requires forall rest :: ReplaceAll(open + rest, p, rep) == open' + ReplaceAll(rest, p, rep)
    requires forall rest :: ReplaceAll(close + rest, p, rep) == close' + ReplaceAll(rest, p, rep)
    ensures ReplaceAll(Wrapped(items, open, close), p, rep) == Wrapped(items, open', close')
  {
    ReplaceAllWrappedThen(items, open, close, p, rep, open', close', []);
    assert Wrapped(items, open, close) + [] == Wrapped(items, open, close);
    assert Wrapped(items, open', close') + [] == Wrapped(items, open', close');
  }

  lemma Regroup5(a: string, b: string, c: string, d: string, e: string)
    ensures a + b + c + d + e == a + (b + (c + (d + e)))
    ensures (a + b + c + d) + e == a + (b + (c + (d + e)))
  {
  }

  /** A tag that the pattern does not match at its start is copied, and so is what follows its '<'. */
  lemma TagKept(t: string, rest: string, p: Pattern, rep: string)
    requires OpensWithLt(p)
    requires |t| >= 1 && t[0] == '<' && '<' !in t[1..]
    requires MatchLength(p, t + rest) == 0
    ensures ReplaceAll(t + rest, p, rep) == t + ReplaceAll(rest, p, rep)
  {
    var s := t + rest;
    assert ReplaceAll(s, p, rep) == [s[0]] + ReplaceAll(s[1..], p, rep);
    assert s[1..] == t[1..] + rest;
    ReplaceAllPlainPrefix(t[1..], rest, p, rep);
    Regroup(t, ReplaceAll(rest, p, rep));
  }

  lemma Regroup(t: string, y: string)
    requires |t| >= 1
    ensures [t[0]] + (t[1..] + y) == t + y
  {
    assert [t[0]] + t[1..] == t;
  }

  lemma TagReplaced(t: string, rest: string, p: Pattern, rep: string)
    requires |t| >= 1 && MatchLength(p, t + rest) == |t|
    ensures ReplaceAll(t + rest, p, rep) == rep + ReplaceAll(rest, p, rep)
  {
    var s := t + rest;
    assert s[|t|..] == rest;
  }

  /** How each of the seven patterns fares at the start of `<li>`. */
  lemma ItemOpenMatches(rest: string)
    ensures MatchLength(BreakTag, "<li>" + rest) == 0
    ensures MatchLength(SpanOpenTag, "<li>" + rest) == 0
    ensures MatchLength(Literal("</span>"), "<li>" + rest) == 0
    ensures MatchLength(Literal("<ul>"), "<li>" + rest) == 0
    ensures MatchLength(Literal("</ul>"), "<li>" + rest) == 0
    ensures MatchLength(Literal("<li>"), "<li>" + rest) == 4
    ensures MatchLength(Literal("</li>"), "<li>" + rest) == 0
  {
    var s := "<li>" + rest;
    assert s[0] == '<' && s[1] == 'l' && s[2] == 'i' && s[3] == '>';
    assert !SameIgnoringCase(s[1], 'b') && !SameIgnoringCase(s[1], 's');
    assert !SameIgnoringCase(s[1], '/') && !SameIgnoringCase(s[1], 'u');
  }

  /** How each of the seven patterns fares at the start of `</li>`. */
  lemma ItemCloseMatches(rest: string)
    ensures MatchLength(BreakTag, "</li>" + rest) == 0
    ensures MatchLength(SpanOpenTag, "</li>" + rest) == 0
    ensures MatchLength(Literal("</span>"), "</li>" + rest) == 0
    ensures MatchLength(Literal("<ul>"), "</li>" + rest) == 0
    ensures MatchLength(Literal("</ul>"), "</li>" + rest) == 0
    ensures MatchLength(Literal("<li>"), "</li>" + rest) == 0
    ensures MatchLength(Literal("</li>"), "</li>" + rest) == 5
  {
    var t := "</li>" + rest;
    assert t[0] == '<' && t[1] == '/' && t[2] == 'l' && t[3] == 'i' && t[4] == '>';
    assert !SameIgnoringCase(t[1], 'b') && !SameIgnoringCase(t[1], 's');
    assert !SameIgnoringCase(t[1], 'u') && !SameIgnoringCase(t[1], 'l');
    assert !SameIgnoringCase(t[2], 's') && !SameIgnoringCase(t[2], 'u');
  }

  /** The five patterns that come before the list items are the ones that leave `<li>` and `</li>` alone. */
  predicate BeforeItems(p: Pattern) {
    p in {BreakTag, SpanOpenTag, Literal("</span>"), Literal("<ul>"), Literal("</ul>")}
  }

  lemma ItemOpenKept(rest: string, p: Pattern, rep: string)
    requires BeforeItems(p)
    ensures ReplaceAll("<li>" + rest, p, rep) == "<li>" + ReplaceAll(rest, p, rep)
  {
    ItemOpenMatches(rest);
    TagKept("<li>", rest, p, rep);
  }

  lemma ItemCloseKept(rest: string, p: Pattern, rep: string)
    requires BeforeItems(p) || p == Literal("<li>")
    ensures ReplaceAll("</li>" + rest, p, rep) == "</li>" + ReplaceAll(rest, p, rep)
  {
    ItemCloseMatches(rest);
    TagKept("</li>", rest, p, rep);
  }

  /** The first five replacements leave a list of tag-free items as it is. */
  lemma UnwrappedList(items: seq<string>)
    requires forall i :: 0 <= i < |items| ==> '<' !in items[i]
    ensures Unwrapped(Wrapped(items, "<li>", "</li>")) == Wrapped(items, "<li>", "</li>")
  {
    var w := Wrapped(items, "<li>", "</li>");
    ListUntouched(items, BreakTag, "\n");
    ListUntouched(items, SpanOpenTag, "");
    ListUntouched(items, Literal("</span>"), "");
    ListUntouched(items, Literal("<ul>"), "");
    ListUntouched(items, Literal("</ul>"), "");
  }

  lemma ListUntouched(items: seq<string>, p: Pattern, rep: string)
    requires BeforeItems(p)
    requires forall i :: 0 <= i < |items| ==> '<' !in items[i]
    ensures ReplaceAll(Wrapped(items, "<li>", "</li>"), p, rep) == Wrapped(items, "<li>", "</li>")
  {
    var w := Wrapped(items, "<li>", "</li>");
    ListUntouchedThen(items, p, rep, []);
    assert w + [] == w;
  }

  /** `<li>A</li><li>B</li>` becomes a bullet, `A`, a newline, a bullet, `B`, a newline. */
  lemma CleanListItems(items: seq<string>)
    requires forall i :: 0 <= i < |items| ==> '<' !in items[i]
    ensures CleanHtmlDescription(Some(Wrapped(items, "<li>", "</li>"))) == Wrapped(items, Bullet, "\n")
  {
    UnwrappedList(items);
    ItemsOpened(items);
    ItemsClosed(items);
    assert Cleaned(Wrapped(items, "<li>", "</li>")) == Wrapped(items, Bullet, "\n");
  }

  lemma ItemsOpened(items: seq<string>)
    requires forall i :: 0 <= i < |items| ==> '<' !in items[i]
    ensures ReplaceAll(Wrapped(items, "<li>", "</li>"), Literal("<li>"), Bullet) == Wrapped(items, Bullet, "</li>")
  {
    var p := Literal("<li>");
    forall rest ensures ReplaceAll("<li>" + rest, p, Bullet) == Bullet + ReplaceAll(rest, p, Bullet) {
      ItemOpenMatches(rest);
      TagReplaced("<li>", rest, p, Bullet);
    }
    forall rest ensures ReplaceAll("</li>" + rest, p, Bullet) == "</li>" + ReplaceAll(rest, p, Bullet) {
      ItemCloseKept(rest, p, Bullet);
    }
    ReplaceAllWrapped(items, "<li>", "</li>", p, Bullet, Bullet, "</li>");
  }

  lemma ItemsClosed(items: seq<string>)
    requires forall i :: 0 <= i < |items| ==> '<' !in items[i]
    ensures ReplaceAll(Wrapped(items, Bullet, "</li>"), Literal("</li>"), "\n") == Wrapped(items, Bullet, "\n")
  {
    var p := Literal("</li>");
    forall rest ensures ReplaceAll(Bullet + rest, p, "\n") == Bullet + ReplaceAll(rest, p, "\n") {
      ReplaceAllPlainPrefix(Bullet, rest, p, "\n");
    }
    forall rest ensures ReplaceAll("</li>" + rest, p, "\n") == "\n" + ReplaceAll(rest, p, "\n") {
      ItemCloseMatches(rest);
      TagReplaced("</li>", rest, p, "\n");
    }
    ReplaceAllWrapped(items, Bullet, "</li>", p, "\n", Bullet, "\n");
  }

  /** How the five patterns before the list items fare at the start of `<ul>`. */
  lemma ListOpenMatches(rest: string)
    ensures MatchLength(BreakTag, "<ul>" + rest) == 0
    ensures MatchLength(SpanOpenTag, "<ul>" + rest) == 0
    ensures MatchLength(Literal("</span>"), "<ul>" + rest) == 0
    ensures MatchLength(Literal("<ul>"), "<ul>" + rest) == 4
    ensures MatchLength(Literal("</ul>"), "<ul>" + rest) == 0
  {
    var s := "<ul>" + rest;
    assert s[0] == '<' && s[1] == 'u' && s[2] == 'l' && s[3] == '>';
    assert !SameIgnoringCase(s[1], 'b') && !SameIgnoringCase(s[1], 's') && !SameIgnoringCase(s[1], '/');
  }

  /** How the five patterns before the list items fare at the start of `</ul>`. */
  lemma ListCloseMatches(rest: string)
    ensures MatchLength(BreakTag, "</ul>" + rest) == 0
    ensures MatchLength(SpanOpenTag, "</ul>" + rest) == 0
    ensures MatchLength(Literal("</span>"), "</ul>" + rest) == 0
    ensures MatchLength(Literal("<ul>"), "</ul>" + rest) == 0
    ensures MatchLength(Literal("</ul>"), "</ul>" + rest) == 5
  {
    var s := "</ul>" + rest;
    assert s[0] == '<' && s[1] == '/' && s[2] == 'u' && s[3] == 'l' && s[4] == '>';
    assert !SameIgnoringCase(s[1], 'b') && !SameIgnoringCase(s[1], 's') && !SameIgnoringCase(s[1], 'u');
    assert !SameIgnoringCase(s[2], 's');
  }

  /** How the first three patterns fare at the start of `</span>`. */
  lemma SpanCloseMatches(rest: string)
    ensures MatchLength(BreakTag, "</span>" + rest) == 0
    ensures MatchLength(SpanOpenTag, "</span>" + rest) == 0
    ensures MatchLength(Literal("</span>"), "</span>" + rest) == 7
  {
    var s := "</span>" + rest;
    assert s[0] == '<' && s[1] == '/' && s[2] == 's' && s[3] == 'p' && s[4] == 'a' && s[5] == 'n' && s[6] == '>';
    assert !SameIgnoringCase(s[1], 'b') && !SameIgnoringCase(s[1], 's');
  }

  /** A list of tag-free items passes the first five replacements, and so does what follows it. */
  lemma ListUntouchedThen(items: seq<string>, p: Pattern, rep: string, rest: string)
    requires BeforeItems(p)
    requires forall i :: 0 <= i < |items| ==> '<' !in items[i]
    ensures ReplaceAll(Wrapped(items, "<li>", "</li>") + rest, p, rep) == Wrapped(items, "<li>", "</li>") + ReplaceAll(rest, p, rep)
  {
    forall rest ensures ReplaceAll("<li>" + rest, p, rep) == "<li>" + ReplaceAll(rest, p, rep) {
      ItemOpenKept(rest, p, rep);
    }
    forall rest ensures ReplaceAll("</li>" + rest, p, rep) == "</li>" + ReplaceAll(rest, p, rep) {
      ItemCloseKept(rest, p, rep);
    }
    ReplaceAllWrappedThen(items, "<li>", "</li>", p, rep, "<li>", "</li>", rest);
  }

  /** Each of the line-break and span replacements leaves a `<ul>` list as it is. */
  lemma ListInUlKept(items: seq<string>, p: Pattern, rep: string)
    requires p == BreakTag || p == SpanOpenTag || p == Literal("</span>")
    requires forall i :: 0 <= i < |items| ==> '<' !in items[i]
    ensures ReplaceAll("<ul>" + Wrapped(items, "<li>", "</li>") + "</ul>", p, rep) == "<ul>" + Wrapped(items, "<li>", "</li>") + "</ul>"
  {
    var w := Wrapped(items, "<li>", "</li>");
    assert "<ul>" + w + "</ul>" == "<ul>" + (w + "</ul>");
    ListOpenMatches(w + "</ul>");
    TagKept("<ul>", w + "</ul>", p, rep);
    ListUntouchedThen(items, p, rep, "</ul>");
    ListCloseAlone(p, rep);
  }

  /** A lone `</ul>` is copied by the replacements before its own. */
  lemma ListCloseAlone(p: Pattern, rep: string)
    requires p == BreakTag || p == SpanOpenTag || p == Literal("</span>") || p == Literal("<ul>")
    ensures ReplaceAll("</ul>", p, rep) == "</ul>"
  {
    ListCloseMatches([]);
    assert "</ul>" + [] == "</ul>";
    TagKept("</ul>", [], p, rep);
  }

  /** The `<ul>` replacement drops the tag and goes on after it. */
  lemma ListOpenDropped(rest: string)
    ensures ReplaceAll("<ul>" + rest, Literal("<ul>"), "") == ReplaceAll(rest, Literal("<ul>"), "")
  {
    ListOpenMatches(rest);
    TagReplaced("<ul>", rest, Literal("<ul>"), "");
  }

  /** The `<ul>` replacement removes the list's opening tag. */
  lemma ListOpenRemoved(items: seq<string>)
    requires forall i :: 0 <= i < |items| ==> '<' !in items[i]
    ensures ReplaceAll("<ul>" + Wrapped(items, "<li>", "</li>") + "</ul>", Literal("<ul>"), "") == Wrapped(items, "<li>", "</li>") + "</ul>"
  {
    var p := Literal("<ul>");
    var w := Wrapped(items, "<li>", "</li>");
    var tail := w + "</ul>";
    assert "<ul>" + w + "</ul>" == "<ul>" + tail;
    ListOpenDropped(tail);
    ListUntouchedThen(items, p, "", "</ul>");
    ListCloseAlone(p, "");
  }

  /** The `</ul>` replacement removes the list's closing tag. */
  lemma ListCloseRemoved(items: seq<string>)
    requires forall i :: 0 <= i < |items| ==> '<' !in items[i]
    ensures ReplaceAll(Wrapped(items, "<li>", "</li>") + "</ul>", Literal("</ul>"), "") == Wrapped(items, "<li>", "</li>")
  {
    var p := Literal("</ul>");
    var w := Wrapped(items, "<li>", "</li>");
    ListUntouchedThen(items, p, "", "</ul>");
    ListCloseMatches([]);
    assert "</ul>" + [] == "</ul>";
    TagReplaced("</ul>", [], p, "");
    assert w + [] == w;
  }

  /** The first five replacements take a `<ul>` list of tag-free items out of its wrapper. */
  lemma UnwrappedUl(items: seq<string>)
    requires forall i :: 0 <= i < |items| ==> '<' !in items[i]
    ensures Unwrapped("<ul>" + Wrapped(items, "<li>", "</li>") + "</ul>") == Wrapped(items, "<li>", "</li>")
  {
    var w := Wrapped(items, "<li>", "</li>");
    var s := "<ul>" + w + "</ul>";
    ListInUlKept(items, BreakTag, "\n");
    ListInUlKept(items, SpanOpenTag, "");
    ListInUlKept(items, Literal("</span>"), "");
    ListOpenRemoved(items);
    ListCloseRemoved(items);
    var breaks := ReplaceAll(s, BreakTag, "\n");
    assert breaks == s;
    var spansOpened := ReplaceAll(breaks, SpanOpenTag, "");
    assert spansOpened == s;
    var spansClosed := ReplaceAll(spansOpened, Literal("</span>"), "");
    assert spansClosed == s;
    var listsOpened := ReplaceAll(spansClosed, Literal("<ul>"), "");
    assert listsOpened == w + "</ul>";
  }

  /** `<ul><li>A</li><li>B</li></ul>` becomes a bullet, `A`, a newline, a bullet, `B`, a newline. */
  lemma CleanBulletedList(items: seq<string>)
    requires forall i :: 0 <= i < |items| ==> '<' !in items[i]
    ensures CleanHtmlDescription(Some("<ul>" + Wrapped(items, "<li>", "</li>") + "</ul>")) == Wrapped(items, Bullet, "\n")
  {
    var s := "<ul>" + Wrapped(items, "<li>", "</li>") + "</ul>";
    assert s[0] == '<';
    UnwrappedUl(items);
    ItemsOpened(items);
    ItemsClosed(items);
    assert Cleaned(s) == Wrapped(items, Bullet, "\n");
  }

  lemma {:induction false} NonCloseRunOf(a: string, tail: string)
    requires '>' !in a
    requires tail != [] && tail[0] == '>'
    ensures NonCloseRun(a + tail) == |a|
    decreases |a|
  {
    if a == [] {
      assert a + tail == tail;
    } else {
      assert (a + tail)[0] == a[0];
      assert (a + tail)[1..] == a[1..] + tail;
      NonCloseRunOf(a[1..], tail);
    }
  }

  /** A lone `</span>` is copied by the two replacements before its own. */
  lemma SpanCloseAlone(p: Pattern, rep: string)
    requires p == BreakTag || p == SpanOpenTag
    ensures ReplaceAll("</span>", p, rep) == "</span>"
  {
    SpanCloseMatches([]);
    assert "</span>" + [] == "</span>";
    TagKept("</span>", [], p, rep);
  }

  /** `<span` with attributes free of '>' matches up to and including the first '>'. */
  lemma SpanOpenMatch(a: string, rest: string)
    requires '>' !in a
    ensures MatchLength(SpanOpenTag, "<span" + a + ">" + rest) == |a| + 6
  {
    var s := "<span" + a + ">" + rest;
    assert StartsWithIgnoringCase(s, "<span");
    assert s[5..] == a + (">" + rest);
    NonCloseRunOf(a, ">" + rest);
  }

  /** The line-break replacement copies a span with tag-free attributes and text. */
  lemma SpanBreaksKept(a: string, x: string)
    requires '<' !in a && '>' !in a
    requires '<' !in x
    ensures ReplaceAll("<span" + a + ">" + x + "</span>", BreakTag, "\n") == "<span" + a + ">" + x + "</span>"
  {
    var open := "<span" + a + ">";
    var tail := x + "</span>";
    assert open + x + "</span>" == open + tail;
    assert open[1..] == "span" + a + ">";
    assert (open + tail)[1] == 's';
    assert !SameIgnoringCase((open + tail)[1], 'b');
    assert MatchLength(BreakTag, open + tail) == 0;
    TagKept(open, tail, BreakTag, "\n");
    ReplaceAllPlainPrefix(x, "</span>", BreakTag, "\n");
    SpanCloseAlone(BreakTag, "\n");
  }

  /** The opening span replacement removes the opening tag with its attributes. */
  lemma SpanOpenRemoved(a: string, x: string)
    requires '<' !in a && '>' !in a
    requires '<' !in x
    ensures ReplaceAll("<span" + a + ">" + x + "</span>", SpanOpenTag, "") == x + "</span>"
  {
    var open := "<span" + a + ">";
    var tail := x + "</span>";
    assert open + x + "</span>" == open + tail;
    assert "<span" + a + ">" + tail == open + tail;
    SpanOpenMatch(a, tail);
    TagReplaced(open, tail, SpanOpenTag, "");
    ReplaceAllPlainPrefix(x, "</span>", SpanOpenTag, "");
    SpanCloseAlone(SpanOpenTag, "");
  }

  /** The closing span replacement removes the closing tag. */
  lemma SpanCloseRemoved(x: string)
    requires '<' !in x
    ensures ReplaceAll(x + "</span>", Literal("</span>"), "") == x
  {
    ReplaceAllPlainPrefix(x, "</span>", Literal("</span>"), "");
    SpanCloseMatches([]);
    assert "</span>" + [] == "</span>";
    TagReplaced("</span>", [], Literal("</span>"), "");
    assert x + [] == x;
  }

  /**
   * `<span attributes>text</span>` cleans to the text: the opening tag with its
   * attributes and the closing tag are both removed.
   */
  lemma CleanSpan(a: string, x: string)
    requires '<' !in a && '>' !in a
    requires '<' !in x
    ensures CleanHtmlDescription(Some("<span" + a + ">" + x + "</span>")) == x
  {
    var s := "<span" + a + ">" + x + "</span>";
    assert s[0] == '<';
    SpanBreaksKept(a, x);
    SpanOpenRemoved(a, x);
    SpanCloseRemoved(x);
    ReplaceAllPlain(x, Literal("<ul>"), "");
    ReplaceAllPlain(x, Literal("</ul>"), "");
    ReplaceAllPlain(x, Literal("<li>"), Bullet);
    ReplaceAllPlain(x, Literal("</li>"), "\n");
    var breaks := ReplaceAll(s, BreakTag, "\n");
    assert breaks == s;
    var spansOpened := ReplaceAll(breaks, SpanOpenTag, "");
    assert spansOpened == x + "</span>";
    var spansClosed := ReplaceAll(spansOpened, Literal("</span>"), "");
    assert spansClosed == x;
    assert Unwrapped(s) == x;
    assert Cleaned(s) == x;
  }

  lemma BreakTagMatch(rest: string)
    ensures MatchLength(BreakTag, "<br>" + rest) == 4
  {
    var t := "<br>" + rest;
    assert StartsWithIgnoringCase(t, "<br");
    assert t[3..] == ">" + rest;
    assert SpaceRun(t[3..]) == 0;
  }

  lemma SpanNameKept(rest: string)
    ensures ReplaceAll("<span " + rest, BreakTag, "\n") == "<span " + ReplaceAll(rest, BreakTag, "\n")
  {
    var s := "<span " + rest;
    assert s[1] == 's';
    assert !SameIgnoringCase(s[1], 'b');
    assert MatchLength(BreakTag, s) == 0;
    assert "<span "[1..] == "span ";
    TagKept("<span ", rest, BreakTag, "\n");
  }

  lemma BreakAfterSpanName(x: string)
    requires '<' !in x
    ensures ReplaceAll("<span " + ("<br>" + (x + "</span>")), BreakTag, "\n") == "<span " + ("\n" + (x + "</span>"))
  {
    var rest := x + "</span>";
    BreakTagMatch(rest);
    TagReplaced("<br>", rest, BreakTag, "\n");
    ReplaceAllPlainPrefix(x, "</span>", BreakTag, "\n");
    SpanCloseAlone(BreakTag, "\n");
    SpanNameKept("<br>" + rest);
  }

  lemma SpanToLastClose(x: string)
    requires '>' !in x
    ensures ReplaceAll("<span " + ("\n" + (x + "</span>")), SpanOpenTag, "") == ""
  {
    var b := "<span " + ("\n" + (x + "</span>"));
    var a := " \n" + x + "</span";
    assert '>' !in a;
    assert b == "<span" + a + ">" + [];
    SpanOpenMatch(a, []);
    assert MatchLength(SpanOpenTag, b) == |b|;
    assert b[|b|..] == [];
  }

  lemma SpanBreakRegroup(x: string)
    ensures "<span <br>" + x + "</span>" == "<span " + ("<br>" + (x + "</span>"))
  {
    assert "<span <br>" == "<span " + "<br>";
  }

  /**
   * Attributes that hold a line-break tag are not stripped as attributes: the
   * line-break step runs first, and the opening span pattern then reaches the
   * '>' of the closing tag, so the text goes with it.
   */
  lemma SpanWithBreakInAttributes(x: string)
    requires '<' !in x && '>' !in x
    ensures CleanHtmlDescription(Some("<span <br>" + x + "</span>")) == ""
  {
    var s := "<span <br>" + x + "</span>";
    SpanBreakRegroup(x);
    assert s[0] == '<';
    BreakAfterSpanName(x);
    SpanToLastClose(x);
    ReplaceAllPlain("", Literal("</span>"), "");
    ReplaceAllPlain("", Literal("<ul>"), "");
    ReplaceAllPlain("", Literal("</ul>"), "");
    ReplaceAllPlain("", Literal("<li>"), Bullet);
    ReplaceAllPlain("", Literal("</li>"), "\n");
    assert Unwrapped(s) == "";
    assert Cleaned(s) == "";
  }

  /** `s` contains `t` somewhere, letters compared without regard to case. */
  ghost predicate ContainsIgnoringCase(s: string, t: string) {
    exists i :: 0 <= i <= |s| && StartsWithIgnoringCase(s[i..], t)
  }

  lemma ContainsInSuffix(s: string, n: nat, t: string)
    requires n <= |s|
    requires ContainsIgnoringCase(s[n..], t)
    ensures ContainsIgnoringCase(s, t)
  {
    var i :| 0 <= i <= |s[n..]| && StartsWithIgnoringCase(s[n..][i..], t);
    assert s[n..][i..] == s[n + i..];
  }

  /**
   * As long as the output of a replacement avoids the first character of the
   * replacement text, it copies the input.
   */
  lemma {:induction false} ReplacePrefix(s: string, p: Pattern, rep: string, m: nat)
    requires |rep| >= 1
    requires m <= |ReplaceAll(s, p, rep)|
    requires forall i :: 0 <= i < m ==> ReplaceAll(s, p, rep)[i] != rep[0]
    ensures m <= |s|
    ensures forall i :: 0 <= i < m ==> s[i] == ReplaceAll(s, p, rep)[i]
    decreases m
  {
    if m > 0 {
      var out := ReplaceAll(s, p, rep);
      ReplaceAllHead(s, p, rep);
      var tail := ReplaceAll(s[1..], p, rep);
      assert out == [s[0]] + tail;
      forall i | 0 <= i < m - 1 ensures tail[i] != rep[0] {
        assert tail[i] == out[i + 1];
      }
      ReplacePrefix(s[1..], p, rep, m - 1);
      forall i | 0 <= i < m ensures s[i] == out[i] {
        if i > 0 {
          assert s[i] == s[1..][i - 1];
          assert out[i] == tail[i - 1];
        }
      }
    }
  }

  /** The output starts with the replacement text where the pattern matches, and with the input's first character where it does not. */
  lemma ReplaceAllHead(s: string, p: Pattern, rep: string)
    requires s != [] && |rep| >= 1
    ensures ReplaceAll(s, p, rep)[0] == if MatchLength(p, s) > 0 then rep[0] else s[0]
    ensures ReplaceAll(s, p, rep)[0] != rep[0] ==> ReplaceAll(s, p, rep) == [s[0]] + ReplaceAll(s[1..], p, rep)
  {
  }

  /**
   * A replacement whose text has no '<' and cannot continue a tag `u` leaves no
   * `u` behind: neither where it replaced `u` itself, nor elsewhere when the
   * input had none.
   */
  lemma {:induction false} ReplaceAllAvoids(s: string, p: Pattern, rep: string, u: string)
    requires |u| >= 1 && u[0] == '<' && OpensWithLt(p)
    requires |rep| >= 1 && '<' !in rep
    requires forall k :: 1 <= k < |u| ==> !SameIgnoringCase(rep[0], u[k])
    requires p == Literal(u) || !ContainsIgnoringCase(s, u)
    ensures !ContainsIgnoringCase(ReplaceAll(s, p, rep), u)
    decreases |s|
  {
    var out := ReplaceAll(s, p, rep);
    if s != [] {
      var n := MatchLength(p, s);
      if n > 0 {
        var tail := ReplaceAll(s[n..], p, rep);
        assert out == rep + tail;
        if p != Literal(u) && ContainsIgnoringCase(s[n..], u) {
          ContainsInSuffix(s, n, u);
          assert false;
        }
        ReplaceAllAvoids(s[n..], p, rep, u);
        forall i | 0 <= i <= |out| ensures !StartsWithIgnoringCase(out[i..], u) {
          if i < |rep| {
            assert out[i..][0] == rep[i];
          } else {
            assert out[i..] == tail[i - |rep|..];
          }
        }
      } else {
        var tail := ReplaceAll(s[1..], p, rep);
        assert out == [s[0]] + tail;
        if p != Literal(u) && ContainsIgnoringCase(s[1..], u) {
          ContainsInSuffix(s, 1, u);
          assert false;
        }
        ReplaceAllAvoids(s[1..], p, rep, u);
        forall i | 0 <= i <= |out| ensures !StartsWithIgnoringCase(out[i..], u) {
          if i == 0 {
            NoTagAtCopiedStart(s, p, rep, u);
          } else {
            assert out[i..] == tail[i - 1..];
          }
        }
      }
    }
  }

  lemma NoTagAtCopiedStart(s: string, p: Pattern, rep: string, u: string)
    requires s != [] && MatchLength(p, s) == 0
    requires |u| >= 1 && |rep| >= 1
    requires forall k :: 1 <= k < |u| ==> !SameIgnoringCase(rep[0], u[k])
    requires p == Literal(u) || !ContainsIgnoringCase(s, u)
    ensures !StartsWithIgnoringCase(ReplaceAll(s, p, rep), u)
  {
    if StartsWithIgnoringCase(ReplaceAll(s, p, rep), u) {
      CopiedStart(s, p, rep, u);
      UnmatchedStart(s, p, u);
      assert false;
    }
  }

  /** Where the output starts with `u` and then avoids `rep[0]`, so does the input. */
  lemma CopiedStart(s: string, p: Pattern, rep: string, u: string)
    requires s != [] && MatchLength(p, s) == 0
    requires |u| >= 1 && |rep| >= 1
    requires forall k :: 1 <= k < |u| ==> !SameIgnoringCase(rep[0], u[k])
    requires StartsWithIgnoringCase(ReplaceAll(s, p, rep), u)
    ensures StartsWithIgnoringCase(s, u)
  {
    var out := ReplaceAll(s, p, rep);
    var tail := ReplaceAll(s[1..], p, rep);
    assert out == [s[0]] + tail;
    forall i | 0 <= i < |u| - 1 ensures tail[i] != rep[0] {
      assert tail[i] == out[i + 1];
    }
    ReplacePrefix(s[1..], p, rep, |u| - 1);
    forall i | 0 <= i < |u| ensures SameIgnoringCase(s[i], u[i]) {
      if i > 0 {
        assert s[i] == s[1..][i - 1];
        assert tail[i - 1] == out[i];
      }
    }
  }

  /** An input that starts with `u` yet is not matched contains `u` under another pattern. */
  lemma UnmatchedStart(s: string, p: Pattern, u: string)
    requires |u| >= 1 && StartsWithIgnoringCase(s, u) && MatchLength(p, s) == 0
    ensures p != Literal(u) && ContainsIgnoringCase(s, u)
  {
    assert s[0..] == s;
  }

  /** No `<li>` or `</li>`, in any letter case, survives the cleaner. */
  lemma CleanLeavesNoListTags(html: Option<string>)
    ensures !ContainsIgnoringCase(CleanHtmlDescription(html), "<li>")
    ensures !ContainsIgnoringCase(CleanHtmlDescription(html), "</li>")
  {
    if html.Some? {
      var bulleted := ReplaceAll(Unwrapped(html.value), Literal("<li>"), Bullet);
      ReplaceAllAvoids(Unwrapped(html.value), Literal("<li>"), Bullet, "<li>");
      ReplaceAllAvoids(bulleted, Literal("</li>"), "\n", "<li>");
      ReplaceAllAvoids(bulleted, Literal("</li>"), "\n", "</li>");
    } else {
      assert CleanHtmlDescription(html) == "";
    }
  }
}
