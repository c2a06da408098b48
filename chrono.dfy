/**
  Adding missing meditations to the chronological page: the dates of the
  meditation files that no link on the page carries yet, the text of a
  new list entry, the place of a new entry in its year's list (the list
  runs newest first) and the place of a new year heading.
*/
module Chrono {
  import opened Text
  import opened Scan
  import opened Dates
  import opened Grouping
  import opened Sorting

  // ---------------------------------------------------------------------
  // format_date_display
  // ---------------------------------------------------------------------

  /** `%B`: the English month name. */
  function MonthName(m: nat): (r: string)
    requires 1 <= m <= 12
    ensures r != [] && forall k | 0 <= k < |r| :: IsAlpha(r[k])
  {
    if m == 1 then "January" else if m == 2 then "February" else if m == 3 then "March"
    else if m == 4 then "April" else if m == 5 then "May" else if m == 6 then "June"
    else if m == 7 then "July" else if m == 8 then "August" else if m == 9 then "September"
    else if m == 10 then "October" else if m == 11 then "November" else "December"
  }

  function MonthOf(d: string): nat
    requires IsDate(d)
  {
    DecimalValue(d[5..7])
  }

  function DayOf(d: string): nat
    requires IsDate(d)
  {
    DecimalValue(d[8..10])
  }

  /**
    A date `strptime` accepts, as far as the display needs: a month from
    1 to 12, a day from 1 to 31, and a four-digit year from 1000 on.
  */
  predicate DisplayableDate(d: string) {
    IsDate(d) && 1 <= MonthOf(d) <= 12 && 1 <= DayOf(d) <= 31 && d[0] != '0'
  }

  /**
    Python `format_date_display`: `strftime('%B %d, %Y')`, whose day has
    two digits, followed by `.replace(' 0', ' ')`.
  */
  function FormatDateDisplay(d: string): string
    requires DisplayableDate(d)
  {
    ReplaceAll(MonthName(MonthOf(d)) + " " + d[8..10] + ", " + d[..4], " 0", " ")
  }

  /** The display reads "January 5, 2012": the day is written as `str(day)`, without its leading zero. */
  lemma DateDisplayShape(d: string)
    requires DisplayableDate(d)
    ensures FormatDateDisplay(d) == MonthName(MonthOf(d)) + " " + DecimalString(DayOf(d)) + ", " + d[..4]
  {
    var month := MonthName(MonthOf(d));
    YearTailFree(d);
    if d[8] == '0' {
      DayValue(d);
      assert DecimalString(DayOf(d)) == [d[9]];
      ZeroDayText(month, d[8..10], d[..4]);
    } else {
      DayDigits(d);
      WideDayText(month, d[8..10], d[..4]);
    }
  }

  /** A day "05" loses its zero, and nothing else changes. */
  lemma ZeroDayText(month: string, day: string, year: string)
    requires forall k | 0 <= k < |month| :: IsAlpha(month[k])
    requires |day| == 2 && day[0] == '0' && IsDigit(day[1]) && FreeOfSpaceZero(", " + year)
    ensures ReplaceAll(month + " " + day + ", " + year, " 0", " ") == month + " " + [day[1]] + ", " + year
  {
    ZeroDayParts(month, day, year);
    PaddedDay(month, day[1], ", " + year);
  }

  lemma ZeroDayParts(month: string, day: string, year: string)
    requires |day| == 2 && day[0] == '0'
    ensures month + " " + day + ", " + year == month + " 0" + [day[1]] + (", " + year)
    ensures month + " " + [day[1]] + ", " + year == month + " " + [day[1]] + (", " + year)
  {
    assert day == "0" + [day[1]];
  }

  /** A day "15" is kept whole. */
  lemma WideDayText(month: string, day: string, year: string)
    requires forall k | 0 <= k < |month| :: IsAlpha(month[k])
    requires |day| == 2 && day[0] != '0' && IsDigit(day[0]) && IsDigit(day[1]) && FreeOfSpaceZero(", " + year)
    ensures ReplaceAll(month + " " + day + ", " + year, " 0", " ") == month + " " + day + ", " + year
  {
    var tail := ", " + year;
    WideDay(month, day[0], day[1], tail);
    assert day == [day[0], day[1]];
    assert month + " " + day + ", " + year == month + " " + [day[0], day[1]] + tail;
  }

  /** ", 2012" holds no space followed by a zero when the year does not start with one. */
  lemma YearTailFree(d: string)
    requires IsDate(d) && d[0] != '0'
    ensures FreeOfSpaceZero(", " + d[..4])
  {
    var tail := ", " + d[..4];
    forall i | 0 <= i < |tail| - 1 ensures !(tail[i] == ' ' && tail[i + 1] == '0') {
      if i == 1 {
        assert tail[2] == d[0];
      } else if i > 1 {
        assert tail[i] == d[i - 2];
      }
    }
  }

  lemma PaddedDay(month: string, c: char, tail: string)
    requires forall k | 0 <= k < |month| :: IsAlpha(month[k])
    requires IsDigit(c) && FreeOfSpaceZero(tail)
    ensures ReplaceAll(month + " 0" + [c] + tail, " 0", " ") == month + " " + [c] + tail
  {
    var rest := [c] + tail;
    DigitThenFree(c, tail);
    ReplaceLeadingZero(rest);
    SkipFreePrefix(month, " 0" + rest);
    assert month + " 0" + [c] + tail == month + (" 0" + rest);
    assert month + " " + [c] + tail == month + (" " + rest);
  }

  lemma DigitThenFree(c: char, tail: string)
    requires IsDigit(c) && FreeOfSpaceZero(tail)
    ensures FreeOfSpaceZero([c] + tail)
  {
    var rest := [c] + tail;
    forall i | 0 <= i < |rest| - 1 ensures !(rest[i] == ' ' && rest[i + 1] == '0') {
      if i > 0 {
        assert rest[i] == tail[i - 1] && rest[i + 1] == tail[i];
      }
    }
  }

  /** `.replace(' 0', ' ')` on a leading " 0" drops the zero and leaves a free rest alone. */
  lemma ReplaceLeadingZero(rest: string)
    requires FreeOfSpaceZero(rest)
    ensures ReplaceAll(" 0" + rest, " 0", " ") == " " + rest
  {
    ReplaceFree(rest);
    var b := " 0" + rest;
    assert b[..2] == " 0" && b[2..] == rest;
  }

  lemma WideDay(month: string, c1: char, c2: char, tail: string)
    requires forall k | 0 <= k < |month| :: IsAlpha(month[k])
    requires IsDigit(c1) && c1 != '0' && IsDigit(c2) && FreeOfSpaceZero(tail)
    ensures ReplaceAll(month + " " + [c1, c2] + tail, " 0", " ") == month + " " + [c1, c2] + tail
  {
    var s := month + " " + [c1, c2] + tail;
    var m := |month|;
    forall i | 0 <= i < |s| - 1 ensures !(s[i] == ' ' && s[i + 1] == '0') {
      if i < m {
        assert s[i] == month[i];
      } else if i == m {
        assert s[i + 1] == c1;
      } else if i >= m + 3 {
        assert s[i] == tail[i - m - 3] && s[i + 1] == tail[i + 1 - m - 3];
      }
    }
    ReplaceFree(s);
  }

  lemma DayValue(d: string)
    requires IsDate(d)
    ensures DayOf(d) == DigitValue(d[8]) * 10 + DigitValue(d[9])
  {
    assert d[8..10][..1] == [d[8]];
    assert DecimalValue([d[8]]) == DigitValue(d[8]) by {
      assert [d[8]][..0] == [];
    }
  }

  lemma DayDigits(d: string)
    requires IsDate(d) && d[8] != '0'
    ensures DecimalString(DayOf(d)) == d[8..10]
  {
    var v := DayOf(d);
    DayValue(d);
    assert v / 10 == DigitValue(d[8]) && v % 10 == DigitValue(d[9]);
    assert DigitChar(DigitValue(d[8])) == d[8];
    assert DigitChar(DigitValue(d[9])) == d[9];
  }

  /** No space in `s` is followed by a zero. */
  predicate FreeOfSpaceZero(s: string) {
    forall i | 0 <= i < |s| - 1 :: !(s[i] == ' ' && s[i + 1] == '0')
  }

  lemma {:induction false} ReplaceFree(s: string)
    requires FreeOfSpaceZero(s)
    ensures ReplaceAll(s, " 0", " ") == s
    decreases |s|
  {
    if |s| >= 2 {
      assert s[..2] != " 0" by {
        assert s[..2][0] == s[0] && s[..2][1] == s[1];
      }
      assert FreeOfSpaceZero(s[1..]) by {
        forall i | 0 <= i < |s[1..]| - 1 ensures !(s[1..][i] == ' ' && s[1..][i + 1] == '0') {
          assert s[1..][i] == s[i + 1] && s[1..][i + 1] == s[i + 2];
        }
      }
      ReplaceFree(s[1..]);
    }
  }

  /** A prefix of letters cannot hold the start of " 0". */
  lemma {:induction false} SkipFreePrefix(a: string, b: string)
    requires forall k | 0 <= k < |a| :: IsAlpha(a[k])
    requires |b| >= 2
    ensures ReplaceAll(a + b, " 0", " ") == a + ReplaceAll(b, " 0", " ")
    decreases |a|
  {
    if a != [] {
      var s := a + b;
      assert s[..2] != " 0" by {
        assert s[..2][0] == a[0];
      }
      assert s[1..] == a[1..] + b;
      assert ReplaceAll(s, " 0", " ") == [s[0]] + ReplaceAll(s[1..], " 0", " ");
      SkipFreePrefix(a[1..], b);
      assert [a[0]] + (a[1..] + ReplaceAll(b, " 0", " ")) == a + ReplaceAll(b, " 0", " ");
    } else {
      assert a + b == b;
    }
  }

  // ---------------------------------------------------------------------
  // create_entry_html
  // ---------------------------------------------------------------------

  const MaxScriptureLength := 80

  /** Scripture longer than 80 characters is cut to its first 77 and "...". */
  function TruncateScripture(s: string): (r: string)
    ensures |r| <= MaxScriptureLength
    ensures |s| <= MaxScriptureLength ==> r == s
    ensures |s| > MaxScriptureLength ==> |r| == MaxScriptureLength && StartsWith(s, r[..77]) && EndsWith(r, "...")
  {
    if |s| > MaxScriptureLength then
      var r := s[..77] + "...";
      assert r[..77] == s[..77];
      r
    else s
  }

  /** What a meditation page yields: its date and the texts found on it (`None` when absent). */
  datatype PageInfo = PageInfo(date: string, title: Option<string>, occasion: Option<string>, scripture: Option<string>)

  /** The visible parts of a new list entry. */
  datatype EntryText = EntryText(href: string, title: string, meta: string, scripture: string)

  /** Python's `x or default` on an optional string: a missing or empty text gives the default. */
  function OrElse(x: Option<string>, default: string): string {
    if x.Some? && x.value != [] then x.value else default
  }

  /**
    Python `create_entry_html`: the link to the page, the title or
    "Untitled", the date display and the occasion or "Unknown occasion",
    and the truncated scripture. `None` is the `ValueError` that
    `strptime` raises for a date it cannot read, which nothing catches.
  */
  function EntryFor(info: PageInfo): (r: Option<EntryText>)
    ensures r.None? <==> !DisplayableDate(info.date)
    ensures r.Some? ==> r.value.title != [] && r.value.meta != [] && |r.value.scripture| <= MaxScriptureLength
    ensures r.Some? ==> StartsWith(r.value.meta, FormatDateDisplay(info.date) + " • ")
    ensures r.Some? && info.title.Some? && info.title.value != [] ==> r.value.title == info.title.value
    ensures r.Some? && info.title.None? ==> r.value.title == "Untitled"
    ensures r.Some? && info.occasion.None? ==> EndsWith(r.value.meta, " • Unknown occasion")
    ensures r.Some? && info.scripture.None? ==> r.value.scripture == []
  {
    if DisplayableDate(info.date) then Some(EntryWith(FormatDateDisplay(info.date), info)) else None
  }

  /** The entry once the date display is known. */
  function EntryWith(display: string, info: PageInfo): (e: EntryText)
    ensures e.title != [] && e.meta != [] && |e.scripture| <= MaxScriptureLength
    ensures StartsWith(e.meta, display + " • ")
    ensures info.title.Some? && info.title.value != [] ==> e.title == info.title.value
    ensures info.title.None? ==> e.title == "Untitled"
    ensures info.occasion.None? ==> EndsWith(e.meta, " • Unknown occasion")
    ensures info.scripture.None? ==> e.scripture == []
  {
    var head := display + " • ";
    var meta := head + OrElse(info.occasion, "Unknown occasion");
    ConcatAffixes(head, OrElse(info.occasion, "Unknown occasion"));
    if info.occasion.None? then
      assert meta == display + " • Unknown occasion";
      ConcatAffixes(display, " • Unknown occasion");
      EntryWithParts(display, info, meta)
    else
      EntryWithParts(display, info, meta)
  }

  function EntryWithParts(display: string, info: PageInfo, meta: string): (e: EntryText)
    ensures e.meta == meta && e.title != [] && |e.scripture| <= MaxScriptureLength
    ensures info.title.Some? && info.title.value != [] ==> e.title == info.title.value
    ensures info.title.None? ==> e.title == "Untitled"
    ensures info.scripture.None? ==> e.scripture == []
  {
    EntryText("meditations/" + info.date + ".html", OrElse(info.title, "Untitled"), meta,
              TruncateScripture(OrElse(info.scripture, "")))
  }

  // ---------------------------------------------------------------------
  // The missing set
  // ---------------------------------------------------------------------

  /** File stems the script takes for dates: those that start with one (the match is not anchored at the end). */
  function FileDates(stems: seq<string>): set<string> {
    set s | s in stems && StartsWithDate(s)
  }

  /** The first date in each link of the page. */
  function LinkDates(hrefs: seq<string>): set<string> {
    set h | h in hrefs && FirstDate(h).Some? :: FirstDate(h).value
  }

  /** The dates of the files minus the dates linked from the page. */
  method MissingDates(stems: seq<string>, hrefs: seq<string>) returns (missing: set<string>)
    ensures missing == FileDates(stems) - LinkDates(hrefs)
  {
    var fileDates: set<string> := {};
    for i := 0 to |stems|
      invariant fileDates == FileDates(stems[..i])
    {
      assert stems[..i + 1] == stems[..i] + [stems[i]];
      if StartsWithDate(stems[i]) {
        fileDates := fileDates + {stems[i]};
      }
    }
    var chronoDates: set<string> := {};
    for i := 0 to |hrefs|
      invariant chronoDates == LinkDates(hrefs[..i])
    {
      assert hrefs[..i + 1] == hrefs[..i] + [hrefs[i]];
      var m := FirstDate(hrefs[i]);
      if m.Some? {
        chronoDates := chronoDates + {m.value};
      }
    }
    assert stems[..|stems|] == stems;
    assert hrefs[..|hrefs|] == hrefs;
    missing := fileDates - chronoDates;
  }

  /** A date is missing exactly when a file has it as its stem and no link carries it first. */
  lemma MissingIff(stems: seq<string>, hrefs: seq<string>, d: string)
    ensures d in FileDates(stems) - LinkDates(hrefs)
        <==> d in stems && StartsWithDate(d) && forall h | h in hrefs :: FirstDate(h) != Some(d)
  {
    if d in stems && StartsWithDate(d) && forall h | h in hrefs :: FirstDate(h) != Some(d) {
      assert d in FileDates(stems);
    }
  }

  /**
    A stem with more text after its date ("2012-01-15-draft") is always
    missing: links only ever yield ten-character dates.
  */
  lemma LongStemAlwaysMissing(stems: seq<string>, hrefs: seq<string>, s: string)
    requires s in stems && StartsWithDate(s) && |s| > 10
    ensures s in FileDates(stems) - LinkDates(hrefs)
  {
    MissingIff(stems, hrefs, s);
  }

  /**
    Such a stem also has no entry: `strptime` rejects the text after the
    date, so adding it raises and the run stops before the page is saved.
  */
  lemma LongStemHasNoEntry(stems: seq<string>, hrefs: seq<string>, s: string, info: PageInfo)
    requires s in stems && StartsWithDate(s) && |s| > 10 && info.date == s
    ensures s in FileDates(stems) - LinkDates(hrefs)
    ensures EntryFor(info).None?
    ensures forall dates | s in dates :: !AllDisplayable(dates)
  {
    LongStemAlwaysMissing(stems, hrefs, s);
    forall dates | s in dates ensures !AllDisplayable(dates) {
      var n :| 0 <= n < |dates| && dates[n] == s;
      Undisplayable(dates, n);
    }
  }

  // ---------------------------------------------------------------------
  // Placing new entries in a year's list
  // ---------------------------------------------------------------------

  function DateKey(d: string): string {
    d
  }

  /**
    A `li` of a year's list: one the page already had (its position, and
    the date in its link when there is one) or one the script adds (the
    index of its date among the dates added).
  */
  datatype Li = OnPage(pos: nat, link: Option<string>) | Added(n: nat, date: string)

  /** The date `re.search` finds in the `li`'s link; a new entry links to its own date. */
  function LinkDate(li: Li): Option<string> {
    match li
    case OnPage(_, d) => d
    case Added(_, d) => Some(d)
  }

  /** The date a `li` is listed under, the empty text when its link has none. */
  function ShownDate(li: Li): string {
    match LinkDate(li)
    case Some(d) => d
    case None => ""
  }

  function IsOnPage(li: Li): bool {
    li.OnPage?
  }

  /** A pair of `existing_in_section`: a date and the `li` that carries it. */
  datatype Tracked = Tracked(date: string, li: Li)

  function TrackedDate(t: Tracked): string {
    t.date
  }

  /** The year's list as the page holds it, from the dates found in its links. */
  function Initial(links: seq<Option<string>>): (page: seq<Li>)
    ensures |page| == |links|
    ensures forall k | 0 <= k < |links| :: page[k] == OnPage(k, links[k])
  {
    seq(|links|, k requires 0 <= k < |links| => OnPage(k, links[k]))
  }

  /** The new entries for `dates`, in the order they are added. */
  function AddedLis(dates: seq<string>): (lis: seq<Li>)
    ensures |lis| == |dates|
    ensures forall n | 0 <= n < |dates| :: lis[n] == Added(n, dates[n])
  {
    seq(|dates|, n requires 0 <= n < |dates| => Added(n, dates[n]))
  }

  /** The pairs for the `li`s whose link carries a date, in page order. */
  function DatedLis(page: seq<Li>): seq<Tracked>
    decreases |page|
  {
    if page == [] then []
    else
      var rest := DatedLis(page[..|page| - 1]);
      var li := page[|page| - 1];
      if LinkDate(li).Some? then rest + [Tracked(LinkDate(li).value, li)] else rest
  }

  /** Index of the first tracked pair whose date is earlier than `date`, or the end of the list. */
  function FirstEarlier(tracked: seq<Tracked>, date: string): (i: nat)
    ensures i <= |tracked|
    ensures forall k | 0 <= k < i :: !LexLess(tracked[k].date, date)
    ensures i < |tracked| ==> LexLess(tracked[i].date, date)
    decreases |tracked|
  {
    if tracked == [] || LexLess(tracked[0].date, date) then 0
    else 1 + FirstEarlier(tracked[1..], date)
  }

  /** Where `li` stands on the page: its first index, or the end when it is not there. */
  function Position(page: seq<Li>, li: Li): (j: nat)
    ensures j <= |page|
    ensures j < |page| ==> page[j] == li
    ensures forall k | 0 <= k < j :: page[k] != li
    decreases |page|
  {
    if page == [] || page[0] == li then 0
    else 1 + Position(page[1..], li)
  }

  /** The list on the page and the script's tracking copy of it. */
  datatype Section = Section(page: seq<Li>, tracked: seq<Tracked>)

  /** Before any insertion: the page as it is, and its dated entries sorted newest first. */
  function Start(links: seq<Option<string>>): Section {
    var page := Initial(links);
    Section(page, SortBy(DatedLis(page), TrackedDate, true))
  }

  /**
    One date added: the new `li` goes before the `li` of the first tracked
    pair with an earlier date, or at the end of the list, and its pair
    joins the tracking copy, which is sorted again.
  */
  function AddOne(s: Section, n: nat, date: string): Section {
    var li := Added(n, date);
    var i := FirstEarlier(s.tracked, date);
    var j := if i < |s.tracked| then Position(s.page, s.tracked[i].li) else |s.page|;
    Section(s.page[..j] + [li] + s.page[j..], SortBy(s.tracked + [Tracked(date, li)], TrackedDate, true))
  }

  /** The list after adding `dates` one after the other. */
  function AddAll(links: seq<Option<string>>, dates: seq<string>): Section
    decreases |dates|
  {
    if dates == [] then Start(links)
    else AddOne(AddAll(links, dates[..|dates| - 1]), |dates| - 1, dates[|dates| - 1])
  }

  /** The loop that fills `existing_in_section` from the `li`s whose link carries a date. */
  method DatedPairs(page: seq<Li>) returns (existing: seq<Tracked>)
    ensures existing == DatedLis(page)
  {
    existing := [];
    for k := 0 to |page|
      invariant existing == DatedLis(page[..k])
    {
      assert page[..k + 1][..k] == page[..k];
      var d := LinkDate(page[k]);
      if d.Some? {
        existing := existing + [Tracked(d.value, page[k])];
      }
    }
    assert page[..|page|] == page;
  }

  /** The scan for the first tracked pair that `date` is later than. */
  method InsertionPoint(tracked: seq<Tracked>, date: string) returns (i: nat)
    ensures i <= |tracked|
    ensures forall k | 0 <= k < i :: !LexLess(tracked[k].date, date)
    ensures i < |tracked| ==> LexLess(tracked[i].date, date)
    ensures i == FirstEarlier(tracked, date)
  {
    i := 0;
    while i < |tracked| && !LexLess(tracked[i].date, date)
      invariant i <= |tracked|
      invariant forall k | 0 <= k < i :: !LexLess(tracked[k].date, date)
    {
      i := i + 1;
    }
  }

  /**
    The insertion loop of the script for one year's list, for a list in
    any order. `links` holds the date in each `li`'s link, in page order.
    The result is `None` when `create_entry_html` raises for a date that
    `strptime` rejects: the run stops and the page is not written.
  */
  method AddToSection(links: seq<Option<string>>, dates: seq<string>) returns (result: Option<seq<Li>>)
    ensures result.None? <==> !AllDisplayable(dates)
    ensures result.Some? ==> result.value == AddAll(links, dates).page
    ensures result.Some? ==> multiset(result.value) == multiset(Initial(links)) + multiset(AddedLis(dates))
    ensures result.Some? ==> Filter(result.value, IsOnPage, true) == Initial(links)
  {
    var section := Insertions(links, dates);
    if section.None? {
      return None;
    }
    AddAllContents(links, dates);
    AddAllKeepsPage(links, dates);
    result := Some(section.value.page);
  }

  /**
    The loop over the dates: each date's `li` goes before the first tracked
    entry it is later than, and the tracking copy is re-sorted.
  */
  method Insertions(links: seq<Option<string>>, dates: seq<string>) returns (section: Option<Section>)
    ensures section.None? <==> !AllDisplayable(dates)
    ensures section.Some? ==> section.value == AddAll(links, dates)
  {
    var page := Initial(links);
    var existing := DatedPairs(page);
    var tracked := SortBy(existing, TrackedDate, true);
    for n := 0 to |dates|
      invariant Section(page, tracked) == AddAll(links, dates[..n])
      invariant AllDisplayable(dates[..n])
    {
      var date := dates[n];
      if !DisplayableDate(date) {
        Undisplayable(dates, n);
        return None;
      }
      Displayable(dates, n);
      var li := Added(n, date);
      var i := InsertionPoint(tracked, date);
      var j := if i < |tracked| then Position(page, tracked[i].li) else |page|;
      AddAllStep(links, dates, n, page, tracked, j);
      page := page[..j] + [li] + page[j..];
      tracked := SortBy(tracked + [Tracked(date, li)], TrackedDate, true);
    }
    assert dates[..|dates|] == dates;
    section := Some(Section(page, tracked));
  }

  /** Every date has a display, so `create_entry_html` raises for none of them. */
  predicate AllDisplayable(dates: seq<string>) {
    forall n | 0 <= n < |dates| :: DisplayableDate(dates[n])
  }

  lemma Undisplayable(dates: seq<string>, n: nat)
    requires n < |dates| && !DisplayableDate(dates[n])
    ensures !AllDisplayable(dates)
  {
  }

  lemma Displayable(dates: seq<string>, n: nat)
    requires n < |dates| && AllDisplayable(dates[..n]) && DisplayableDate(dates[n])
    ensures AllDisplayable(dates[..n + 1])
  {
    assert forall k | 0 <= k < n :: dates[..n + 1][k] == dates[..n][k];
  }

  /** One turn of the loop performs `AddOne`. */
  lemma AddAllStep(links: seq<Option<string>>, dates: seq<string>, n: nat, page: seq<Li>, tracked: seq<Tracked>, j: nat)
    requires n < |dates| && Section(page, tracked) == AddAll(links, dates[..n])
    requires j == if FirstEarlier(tracked, dates[n]) < |tracked| then Position(page, tracked[FirstEarlier(tracked, dates[n])].li) else |page|
    ensures AddAll(links, dates[..n + 1])
         == Section(page[..j] + [Added(n, dates[n])] + page[j..], SortBy(tracked + [Tracked(dates[n], Added(n, dates[n]))], TrackedDate, true))
  {
    assert dates[..n + 1][..n] == dates[..n];
  }

  /** The list holds exactly its old entries and one new entry per date, whatever its order. */
  lemma {:induction false} AddAllContents(links: seq<Option<string>>, dates: seq<string>)
    ensures multiset(AddAll(links, dates).page) == multiset(Initial(links)) + multiset(AddedLis(dates))
    decreases |dates|
  {
    if dates != [] {
      var m := |dates| - 1;
      AddAllContents(links, dates[..m]);
      var s := AddAll(links, dates[..m]);
      var j := AddOneShape(s, m, dates[m]);
      InsertMultiset(s.page, j, Added(m, dates[m]));
      AddedLisLast(dates);
    }
  }

  lemma AddedLisLast(dates: seq<string>)
    requires dates != []
    ensures multiset(AddedLis(dates)) == multiset(AddedLis(dates[..|dates| - 1])) + multiset{Added(|dates| - 1, dates[|dates| - 1])}
  {
    var m := |dates| - 1;
    assert AddedLis(dates) == AddedLis(dates[..m]) + [Added(m, dates[m])];
  }

  /** The old entries stay on the page, in their old order: only new entries are inserted. */
  lemma {:induction false} AddAllKeepsPage(links: seq<Option<string>>, dates: seq<string>)
    ensures Filter(AddAll(links, dates).page, IsOnPage, true) == Initial(links)
    decreases |dates|
  {
    if dates == [] {
      InitialAllOnPage(links);
    } else {
      var m := |dates| - 1;
      AddAllKeepsPage(links, dates[..m]);
      var s := AddAll(links, dates[..m]);
      var j := AddOneShape(s, m, dates[m]);
      FilterInsertOther(s.page, j, Added(m, dates[m]), IsOnPage, true);
    }
  }

  /** An added date's `li` is inserted somewhere in the page, which is otherwise kept. */
  lemma AddOneShape(s: Section, n: nat, date: string) returns (j: nat)
    ensures j <= |s.page|
    ensures AddOne(s, n, date).page == s.page[..j] + [Added(n, date)] + s.page[j..]
  {
    var i := FirstEarlier(s.tracked, date);
    j := if i < |s.tracked| then Position(s.page, s.tracked[i].li) else |s.page|;
  }

  lemma InsertMultiset(page: seq<Li>, j: nat, li: Li)
    requires j <= |page|
    ensures multiset(page[..j] + [li] + page[j..]) == multiset(page) + multiset{li}
  {
    assert page == page[..j] + page[j..];
  }

  lemma {:induction false} InitialAllOnPage(links: seq<Option<string>>)
    ensures Filter(Initial(links), IsOnPage, true) == Initial(links)
    decreases |links|
  {
    if links != [] {
      var m := |links| - 1;
      InitialAllOnPage(links[..m]);
      assert Initial(links)[..m] == Initial(links[..m]);
    }
  }

  /** `DatedLis` of a concatenation. */
  lemma {:induction false} DatedLisAppend(a: seq<Li>, b: seq<Li>)
    ensures DatedLis(a + b) == DatedLis(a) + DatedLis(b)
    decreases |b|
  {
    if b == [] {
      assert a + b == a;
    } else {
      var m := |b| - 1;
      DatedLisAppend(a, b[..m]);
      assert (a + b)[..|a + b| - 1] == a + b[..m];
      assert (a + b)[|a + b| - 1] == b[m];
    }
  }

  /**
    Whatever the page's order, the tracking copy is always the page's
    dated entries, newest first.
  */
  lemma {:induction false} AddAllTracking(links: seq<Option<string>>, dates: seq<string>)
    ensures multiset(AddAll(links, dates).tracked) == multiset(DatedLis(AddAll(links, dates).page))
    ensures SortedBy(AddAll(links, dates).tracked, TrackedDate, true)
    decreases |dates|
  {
    if dates == [] {
      SortBySorted(DatedLis(Initial(links)), TrackedDate, true);
    } else {
      var m := |dates| - 1;
      AddAllTracking(links, dates[..m]);
      var s := AddAll(links, dates[..m]);
      var li := Added(m, dates[m]);
      var i := FirstEarlier(s.tracked, dates[m]);
      var j := if i < |s.tracked| then Position(s.page, s.tracked[i].li) else |s.page|;
      DatedLisInsert(s.page, j, li);
      SortBySorted(s.tracked + [Tracked(dates[m], li)], TrackedDate, true);
    }
  }

  lemma DatedLisInsert(page: seq<Li>, j: nat, li: Li)
    requires j <= |page| && li.Added?
    ensures multiset(DatedLis(page[..j] + [li] + page[j..]))
         == multiset(DatedLis(page)) + multiset{Tracked(li.date, li)}
  {
    DatedLisAppend(page[..j] + [li], page[j..]);
    DatedLisAppend(page[..j], [li]);
    DatedLisAppend(page[..j], page[j..]);
    assert [li][..0] == [];
    assert DatedLis([li]) == [Tracked(li.date, li)];
    assert page[..j] + page[j..] == page;
  }

  // A list that already runs newest first, every entry dated

  /** Every `li` of the list has a date in its link. */
  predicate AllDated(page: seq<Li>) {
    forall k | 0 <= k < |page| :: LinkDate(page[k]).Some?
  }

  /** The pair of each `li`, in page order. */
  function Pairs(page: seq<Li>): (ps: seq<Tracked>)
    ensures |ps| == |page|
    ensures forall k | 0 <= k < |page| :: ps[k] == Tracked(ShownDate(page[k]), page[k])
  {
    seq(|page|, k requires 0 <= k < |page| => Tracked(ShownDate(page[k]), page[k]))
  }

  predicate Distinct(page: seq<Li>) {
    forall a, b | 0 <= a < b < |page| :: page[a] != page[b]
  }

  /**
    The list of a newest-first section after `n` additions: every entry
    dated, distinct, newest first, and the tracking copy is the list itself.
  */
  predicate InOrder(s: Section, n: nat) {
    && AllDated(s.page)
    && Distinct(s.page)
    && (forall k | 0 <= k < |s.page| :: s.page[k].Added? ==> s.page[k].n < n)
    && s.tracked == Pairs(s.page)
    && SortedBy(s.tracked, TrackedDate, true)
  }

  /**
    A year's list that runs newest first with a date in every link still
    does after the insertions, and the tracking copy keeps matching it.
  */
  lemma SortedSectionStaysSorted(links: seq<Option<string>>, dates: seq<string>)
    requires forall k | 0 <= k < |links| :: links[k].Some?
    requires SortedBy(Initial(links), ShownDate, true)
    ensures SortedBy(AddAll(links, dates).page, ShownDate, true)
    ensures AddAll(links, dates).tracked == Pairs(AddAll(links, dates).page)
  {
    AddAllInOrder(links, dates);
    PairsSorted(AddAll(links, dates).page);
  }

  lemma {:induction false} AddAllInOrder(links: seq<Option<string>>, dates: seq<string>)
    requires forall k | 0 <= k < |links| :: links[k].Some?
    requires SortedBy(Initial(links), ShownDate, true)
    ensures InOrder(AddAll(links, dates), |dates|)
    decreases |dates|
  {
    if dates == [] {
      StartInOrder(links);
    } else {
      var m := |dates| - 1;
      AddAllInOrder(links, dates[..m]);
      AddOneInOrder(AddAll(links, dates[..m]), m, dates[m]);
    }
  }

  lemma StartInOrder(links: seq<Option<string>>)
    requires forall k | 0 <= k < |links| :: links[k].Some?
    requires SortedBy(Initial(links), ShownDate, true)
    ensures InOrder(Start(links), 0)
  {
    var page := Initial(links);
    DatedLisAll(page);
    PairsSorted(page);
    SortByOfSorted(Pairs(page), TrackedDate, true);
  }

  /** The list is newest first exactly when its pairs are. */
  lemma PairsSorted(page: seq<Li>)
    ensures SortedBy(Pairs(page), TrackedDate, true) <==> SortedBy(page, ShownDate, true)
  {
    assert forall k | 0 <= k < |page| :: TrackedDate(Pairs(page)[k]) == ShownDate(page[k]);
  }

  /** With every entry dated, the dated pairs are the pairs of all entries. */
  lemma {:induction false} DatedLisAll(page: seq<Li>)
    requires AllDated(page)
    ensures DatedLis(page) == Pairs(page)
    decreases |page|
  {
    if page != [] {
      var m := |page| - 1;
      assert AllDated(page[..m]) by {
        forall k | 0 <= k < m ensures LinkDate(page[..m][k]).Some? {
          assert page[..m][k] == page[k];
        }
      }
      DatedLisAll(page[..m]);
      assert LinkDate(page[m]).Some?;
      assert Pairs(page) == Pairs(page[..m]) + [Tracked(ShownDate(page[m]), page[m])];
    }
  }

  lemma AddOneInOrder(s: Section, n: nat, date: string)
    requires InOrder(s, n)
    ensures InOrder(AddOne(s, n, date), n + 1)
  {
    var li := Added(n, date);
    var i := AddOneOrdered(s.page, s.tracked, n, date);
    PairsInsert(s.page, i, li);
    InsertFresh(s.page, i, n, date);
  }

  /** On an ordered list, the new entry goes where the sort puts its pair. */
  lemma AddOneOrdered(page: seq<Li>, tracked: seq<Tracked>, n: nat, date: string) returns (i: nat)
    requires Distinct(page) && tracked == Pairs(page) && SortedBy(tracked, TrackedDate, true)
    ensures i <= |page|
    ensures AddOne(Section(page, tracked), n, date).page == page[..i] + [Added(n, date)] + page[i..]
    ensures AddOne(Section(page, tracked), n, date).tracked == tracked[..i] + [Tracked(date, Added(n, date))] + tracked[i..]
    ensures SortedBy(AddOne(Section(page, tracked), n, date).tracked, TrackedDate, true)
  {
    i := FirstEarlier(tracked, date);
    if i < |tracked| {
      PositionOfDistinct(page, i);
    }
    InsertStep(tracked, Tracked(date, Added(n, date)), i);
  }

  /** In a list without repeats, the `li` at index `i` is found at `i`. */
  lemma PositionOfDistinct(page: seq<Li>, i: nat)
    requires Distinct(page) && i < |page|
    ensures Position(page, page[i]) == i
  {
    var j := Position(page, page[i]);
    assert j <= i;
    assert j < |page| && page[j] == page[i];
  }

  /**
    One step of the loop on an ordered copy: re-sorting the copy with the
    new pair equals inserting the pair at the scan's position, and the
    copy stays newest first.
  */
  lemma InsertStep(tracked: seq<Tracked>, e: Tracked, i: nat)
    requires SortedBy(tracked, TrackedDate, true)
    requires i == FirstEarlier(tracked, e.date)
    ensures SortBy(tracked + [e], TrackedDate, true) == tracked[..i] + [e] + tracked[i..]
    ensures SortedBy(SortBy(tracked + [e], TrackedDate, true), TrackedDate, true)
  {
    InsertAt(e, tracked, TrackedDate, true, i);
    InsertSorted(e, tracked, TrackedDate, true);
    SortByOfSorted(tracked, TrackedDate, true);
    assert (tracked + [e])[..|tracked|] == tracked;
  }

  lemma PairsInsert(page: seq<Li>, i: nat, li: Li)
    requires i <= |page|
    ensures Pairs(page[..i] + [li] + page[i..]) == Pairs(page)[..i] + [Tracked(ShownDate(li), li)] + Pairs(page)[i..]
  {
    var r := page[..i] + [li] + page[i..];
    var q := Pairs(page)[..i] + [Tracked(ShownDate(li), li)] + Pairs(page)[i..];
    forall k | 0 <= k < |r| ensures Pairs(r)[k] == q[k] {
      if k < i {
        assert r[k] == page[k];
      } else if k > i {
        assert r[k] == page[k - 1];
      }
    }
  }

  lemma InsertFresh(page: seq<Li>, i: nat, n: nat, date: string)
    requires i <= |page| && AllDated(page) && Distinct(page)
    requires forall k | 0 <= k < |page| :: page[k].Added? ==> page[k].n < n
    ensures AllDated(page[..i] + [Added(n, date)] + page[i..])
    ensures Distinct(page[..i] + [Added(n, date)] + page[i..])
    ensures forall k | 0 <= k < |page| + 1 :: (page[..i] + [Added(n, date)] + page[i..])[k].Added?
              ==> (page[..i] + [Added(n, date)] + page[i..])[k].n < n + 1
  {
    var li := Added(n, date);
    var r := page[..i] + [li] + page[i..];
    forall k | 0 <= k < |r| ensures r[k] == (if k < i then page[k] else if k == i then li else page[k - 1]) {
    }
    forall a, b | 0 <= a < b < |r| ensures r[a] != r[b] {
      if a != i && b != i {
        assert r[a] == page[if a < i then a else a - 1];
        assert r[b] == page[if b < i then b else b - 1];
      }
    }
  }

  // ---------------------------------------------------------------------
  // create_year_section
  // ---------------------------------------------------------------------

  /** `20\d{2}` at index `i`. */
  predicate YearPatternAt(t: string, i: nat) {
    i + 4 <= |t| && t[i] == '2' && t[i + 1] == '0' && IsDigit(t[i + 2]) && IsDigit(t[i + 3])
  }

  function YearPatternFrom(t: string, i: nat): (r: Option<nat>)
    requires i <= |t|
    ensures r.Some? ==> i <= r.value && YearPatternAt(t, r.value)
    ensures r.Some? ==> forall k | i <= k < r.value :: !YearPatternAt(t, k)
    ensures r.None? ==> forall k | i <= k <= |t| :: !YearPatternAt(t, k)
    decreases |t| - i
  {
    if i + 4 > |t| then None
    else if YearPatternAt(t, i) then Some(i)
    else YearPatternFrom(t, i + 1)
  }

  /** `int(re.search(r'(20\d{2})', text).group(1))`, or `None` without a match. */
  function HeadingYear(t: string): (r: Option<nat>)
    ensures r.Some? ==> 2000 <= r.value <= 2099
  {
    match YearPatternFrom(t, 0)
    case None => None
    case Some(k) => Some(2000 + DigitValue(t[k + 2]) * 10 + DigitValue(t[k + 3]))
  }

  /** The heading the script writes for a new year reads back as that year. */
  lemma HeadingYearOfNew(year: nat)
    requires 2000 <= year <= 2099
    ensures HeadingYear(DecimalString(year)) == Some(year)
  {
    var s := DecimalString(year);
    assert DecimalString(2) == "2";
    assert year / 100 == 20;
    assert DecimalString(year / 100) == "2" + [DigitChar(0)];
    assert DecimalString(year / 10) == "20" + [DigitChar((year / 10) % 10)];
    assert s == "20" + [DigitChar((year / 10) % 10)] + [DigitChar(year % 10)];
    assert YearPatternAt(s, 0);
  }

  /** Where a new year section goes: before the first heading with an earlier year, or at the end. */
  method YearSectionPosition(headings: seq<string>, year: nat) returns (pos: nat)
    ensures pos <= |headings|
    ensures forall k | 0 <= k < pos :: !EarlierYear(headings[k], year)
    ensures pos < |headings| ==> EarlierYear(headings[pos], year)
  {
    pos := 0;
    while pos < |headings|
      invariant pos <= |headings|
      invariant forall k | 0 <= k < pos :: !EarlierYear(headings[k], year)
    {
      var m := HeadingYear(headings[pos]);
      if m.Some? && m.value < year {
        return;
      }
      pos := pos + 1;
    }
  }

  /** The heading names a year before `year`. */
  predicate EarlierYear(heading: string, year: nat) {
    HeadingYear(heading).Some? && HeadingYear(heading).value < year
  }

  /** Years strictly newest first. */
  predicate StrictlyDescending(ys: seq<nat>) {
    forall i, j | 0 <= i < j < |ys| :: ys[j] < ys[i]
  }

  /**
    When the heading years run newest first and the year has no heading
    yet, a new heading placed as `YearSectionPosition` places it keeps
    them newest first.
  */
  lemma PlacementKeepsOrder(ys: seq<nat>, year: nat, pos: nat)
    requires StrictlyDescending(ys) && year !in ys
    requires pos <= |ys|
    requires forall k | 0 <= k < pos :: !(ys[k] < year)
    requires pos < |ys| ==> ys[pos] < year
    ensures StrictlyDescending(ys[..pos] + [year] + ys[pos..])
  {
    var r := ys[..pos] + [year] + ys[pos..];
    forall i, j | 0 <= i < j < |r| ensures r[j] < r[i] {
      if i < pos {
        assert r[i] == ys[i];
        assert ys[i] != year by { assert ys[i] in ys; }
        if j > pos {
          assert r[j] == ys[j - 1];
        }
      } else if i == pos {
        assert r[j] == ys[j - 1];
      } else {
        assert r[i] == ys[i - 1] && r[j] == ys[j - 1];
      }
    }
  }

  // ---------------------------------------------------------------------
  // The order of the additions
  // ---------------------------------------------------------------------

  /**
    `date[:4]`, the year of a date stem. The script turns it into an
    integer; four-digit years compare as text as they do as numbers, so
    the text is kept.
  */
  function YearOf(d: string): string {
    if |d| >= 4 then d[..4] else d
  }

  /** The dates of the given years in turn, each year's dates newest first. */
  function Blocks(dates: seq<string>, years: seq<string>): seq<string>
    decreases |years|
  {
    if years == [] then []
    else SortBy(Filter(dates, YearOf, years[0]), DateKey, true) + Blocks(dates, years[1..])
  }

  /**
    The order in which `main` adds the missing dates: `by_year` is filled
    from `sorted(missing)`, the years are taken newest first and each
    year's dates newest first.
  */
  function AdditionOrder(missing: seq<string>): seq<string> {
    var dates := SortBy(missing, DateKey, false);
    Blocks(dates, SortBy(KeysOf(dates, YearOf), DateKey, true))
  }

  /** The `by_year` accumulation and the two nested loops of `main`, the page edits left out. */
  method AdditionPlan(missing: seq<string>) returns (order: seq<string>)
    ensures order == AdditionOrder(missing)
  {
    var dates := SortBy(missing, DateKey, false);
    var byYear := Accumulate(dates, YearOf);
    var years := SortBy(Keys(byYear), DateKey, true);
    PlanYears(dates, byYear);
    order := VisitYears(dates, byYear, years);
  }

  /** The loop over the years, newest first, each year's dates newest first. */
  method VisitYears(dates: seq<string>, byYear: seq<Group<string, string>>, years: seq<string>)
    returns (order: seq<string>)
    requires byYear == GroupBy(dates, YearOf)
    ensures order == Blocks(dates, years)
  {
    order := [];
    for n := 0 to |years|
      invariant order + Blocks(dates, years[n..]) == Blocks(dates, years)
    {
      BlocksStep(dates, years, n);
      LookupGroupBy(dates, YearOf, years[n]);
      order := order + SortBy(Lookup(byYear, years[n]), DateKey, true);
    }
    assert years[|years|..] == [];
  }

  lemma PlanYears(dates: seq<string>, byYear: seq<Group<string, string>>)
    requires byYear == GroupBy(dates, YearOf)
    ensures SortBy(Keys(byYear), DateKey, true) == SortBy(KeysOf(dates, YearOf), DateKey, true)
  {
    KeysOfGroupBy(dates, YearOf);
  }

  lemma BlocksStep(dates: seq<string>, years: seq<string>, n: nat)
    requires n < |years|
    ensures Blocks(dates, years[n..]) == SortBy(Filter(dates, YearOf, years[n]), DateKey, true) + Blocks(dates, years[n + 1..])
  {
    assert years[n..][1..] == years[n + 1..];
  }

  /** A string sorts before another when a prefix of it sorts before a prefix of the other that is no longer. */
  lemma {:induction false} LexLessExtend(p: string, q: string, b: string, a: string)
    requires LexLess(p, q) && p <= b && q <= a && (p == b || |q| <= |p|)
    ensures LexLess(b, a)
    decreases |p|
  {
    if p != [] {
      assert b[0] == p[0] && a[0] == q[0];
      if p[0] == q[0] {
        LexLessExtend(p[1..], q[1..], b[1..], a[1..]);
      }
    }
  }

  /** A date of an earlier year is an earlier date. */
  lemma YearOrder(b: string, a: string)
    requires LexLess(YearOf(b), YearOf(a))
    ensures LexLess(b, a)
  {
    LexLessExtend(YearOf(b), YearOf(a), b, a);
  }

  /** Years strictly newest first, as text. */
  predicate NewestFirst(ys: seq<string>) {
    forall i, j | 0 <= i < j < |ys| :: LexLess(ys[j], ys[i])
  }

  /** A date is in the blocks exactly when it is among the dates and its year is listed. */
  lemma {:induction false} BlocksMember(dates: seq<string>, years: seq<string>, x: string)
    ensures x in Blocks(dates, years) <==> x in dates && YearOf(x) in years
    decreases |years|
  {
    if years != [] {
      BlocksMember(dates, years[1..], x);
      var f := Filter(dates, YearOf, years[0]);
      FilterMember(dates, YearOf, years[0]);
      assert x in SortBy(f, DateKey, true) <==> x in f by {
        assert x in SortBy(f, DateKey, true) <==> x in multiset(SortBy(f, DateKey, true));
        assert x in f <==> x in multiset(f);
      }
      assert years == [years[0]] + years[1..];
    }
  }

  /** With the years newest first, the blocks run newest first from end to end. */
  lemma {:induction false} BlocksSorted(dates: seq<string>, years: seq<string>)
    requires NewestFirst(years)
    ensures SortedBy(Blocks(dates, years), DateKey, true)
    decreases |years|
  {
    if years != [] {
      var f := Filter(dates, YearOf, years[0]);
      var b := SortBy(f, DateKey, true);
      var rest := Blocks(dates, years[1..]);
      BlocksSorted(dates, years[1..]);
      SortBySorted(f, DateKey, true);
      FilterMember(dates, YearOf, years[0]);
      var s := b + rest;
      forall i, j | 0 <= i < j < |s|
        ensures !Precedes(DateKey(s[j]), DateKey(s[i]), true)
      {
        if i < |b| && |b| <= j {
          var x := s[i];
          var y := s[j];
          assert x in multiset(b) && x in f;
          assert y == rest[j - |b|] && y in rest;
          BlocksMember(dates, years[1..], y);
          var k :| 0 <= k < |years[1..]| && years[1..][k] == YearOf(y);
          assert LexLess(years[k + 1], years[0]);
          YearOrder(y, x);
          LexLessAsymmetric(y, x);
        } else if |b| <= i {
          assert s[i] == rest[i - |b|] && s[j] == rest[j - |b|];
        }
      }
    }
  }

  /** Every missing date is added, and nothing else. */
  lemma AdditionOrderMembers(missing: seq<string>, x: string)
    ensures x in AdditionOrder(missing) <==> x in missing
  {
    var dates := SortBy(missing, DateKey, false);
    var keys := KeysOf(dates, YearOf);
    var years := SortBy(keys, DateKey, true);
    BlocksMember(dates, years, x);
    assert x in dates <==> x in multiset(dates);
    assert x in missing <==> x in multiset(missing);
    if x in dates {
      var j :| 0 <= j < |dates| && dates[j] == x;
      assert YearOf(x) in keys;
      assert YearOf(x) in multiset(keys);
    }
  }

  /** The dates are added newest first, across years as well as within one. */
  lemma AdditionOrderNewestFirst(missing: seq<string>)
    ensures SortedBy(AdditionOrder(missing), DateKey, true)
  {
    var dates := SortBy(missing, DateKey, false);
    var keys := KeysOf(dates, YearOf);
    var years := SortBy(keys, DateKey, true);
    KeysOfDistinct(dates, YearOf);
    DistinctPermutation(keys, years);
    SortBySorted(keys, DateKey, true);
    forall i, j | 0 <= i < j < |years|
      ensures LexLess(years[j], years[i])
    {
      LexLessTotal(years[i], years[j]);
    }
    BlocksSorted(dates, years);
  }
}
