/**
  How the first website updater rewrites a listing entry with the title
  first. The text lines of the entry's link are classified into the date,
  the scripture, the title and the occasion lines; the link then reads the
  title-cased title, the line "date — occasion" and the scripture.
  The chronological page and the season index pages classify lines with
  different thresholds.
*/
module Relink {
  import opened Text
  import opened Scan
  import SmartCase

  /** The two kinds of listing the updater rewrites. */
  datatype Listing = ChronologicalPage | SeasonIndex

  // ---------------------------------------------------------------------
  // The lines of a link
  // ---------------------------------------------------------------------

  /** `[l.strip() for l in parts if l.strip()]`. */
  function NonBlank(parts: seq<string>): (r: seq<string>)
    ensures |r| <= |parts|
    ensures forall k | 0 <= k < |r| :: r[k] != [] && IsStripped(r[k])
    decreases |parts|
  {
    if parts == [] then []
    else
      var l := Strip(parts[|parts| - 1]);
      NonBlank(parts[..|parts| - 1]) + (if l != [] then [l] else [])
  }

  /** Every kept line is one of the pieces, stripped. */
  lemma {:induction false} NonBlankFrom(parts: seq<string>, k: nat)
    requires k < |NonBlank(parts)|
    ensures exists i | 0 <= i < |parts| :: NonBlank(parts)[k] == Strip(parts[i])
    decreases |parts|
  {
    var init := parts[..|parts| - 1];
    var l := Strip(parts[|parts| - 1]);
    assert NonBlank(parts) == NonBlank(init) + (if l != [] then [l] else []);
    if k < |NonBlank(init)| {
      NonBlankFrom(init, k);
      var i :| 0 <= i < |init| && NonBlank(init)[k] == Strip(init[i]);
      assert init[i] == parts[i];
    } else {
      assert NonBlank(parts)[k] == Strip(parts[|parts| - 1]);
    }
  }

  lemma NonBlankLast(parts: seq<string>)
    requires parts != []
    ensures NonBlank(parts) == NonBlank(parts[..|parts| - 1])
      + (if Strip(parts[|parts| - 1]) != [] then [Strip(parts[|parts| - 1])] else [])
  {
  }

  /** Every piece that is not blank is kept, stripped. */
  lemma NonBlankKeeps(parts: seq<string>, k: nat)
    requires k < |parts| && Strip(parts[k]) != []
    ensures Strip(parts[k]) in NonBlank(parts)
  {
    var left, p, right := parts[..k], parts[k], parts[k + 1..];
    Around(parts, k);
    NonBlankAppend(left + [p], right);
    NonBlankAppend(left, [p]);
    NonBlankLast([p]);
    assert [p][..0] == [];
    Middle(NonBlank(left), Strip(p), NonBlank(right));
  }

  lemma Snoc(s: seq<string>)
    requires s != []
    ensures s == s[..|s| - 1] + [s[|s| - 1]]
  {
  }

  lemma Around(s: seq<string>, k: nat)
    requires k < |s|
    ensures s == s[..k] + [s[k]] + s[k + 1..]
  {
  }

  lemma Middle(x: seq<string>, l: string, y: seq<string>)
    ensures l in x + [l] + y
  {
    assert (x + [l] + y)[|x|] == l;
  }

  /** The pieces are taken one by one, in order: the result for a concatenation is the concatenation of the results. */
  lemma {:induction false} NonBlankAppend(a: seq<string>, b: seq<string>)
    ensures NonBlank(a + b) == NonBlank(a) + NonBlank(b)
    decreases |b|
  {
    if b == [] {
      assert a + b == a;
    } else {
      var init := b[..|b| - 1];
      var ab := a + b;
      var l := Strip(b[|b| - 1]);
      var e := if l != [] then [l] else [];
      assert ab[..|ab| - 1] == a + init;
      assert ab[|ab| - 1] == b[|b| - 1];
      NonBlankLast(ab);
      NonBlankLast(b);
      NonBlankAppend(a, init);
      SeqAssoc(NonBlank(a), NonBlank(init), e);
    }
  }

  lemma SeqAssoc(x: seq<string>, y: seq<string>, z: seq<string>)
    ensures x + y + z == x + (y + z)
  {
  }

  /** The text of a link as the updater reads it: pieces joined by newlines. */
  function LinkLines(text: string): (r: seq<string>)
    ensures forall k | 0 <= k < |r| :: r[k] != [] && IsStripped(r[k])
  {
    NonBlank(SplitOn(Strip(text), '\n'))
  }

  /** Pieces that are all stripped and not blank are kept as they are. */
  lemma {:induction false} NonBlankOfLines(lines: seq<string>)
    requires forall k | 0 <= k < |lines| :: lines[k] != [] && IsStripped(lines[k])
    ensures NonBlank(lines) == lines
    decreases |lines|
  {
    if lines != [] {
      var init := lines[..|lines| - 1];
      var l := lines[|lines| - 1];
      NonBlankLast(lines);
      StripOfStripped(l);
      assert forall k | 0 <= k < |init| :: init[k] == lines[k];
      NonBlankOfLines(init);
      Snoc(lines);
    }
  }

  /** Lines joined by newlines start with the first line and end with the last. */
  lemma {:induction false} JoinedLinesStripped(lines: seq<string>)
    requires lines != []
    requires forall k | 0 <= k < |lines| :: lines[k] != [] && IsStripped(lines[k])
    ensures IsStripped(Join(lines, "\n"))
    decreases |lines|
  {
    if |lines| > 1 {
      var rest := lines[1..];
      assert forall k | 0 <= k < |rest| :: rest[k] == lines[k + 1];
      JoinedLinesStripped(rest);
      var t := Join(lines, "\n");
      assert t == lines[0] + "\n" + Join(rest, "\n");
      assert t[0] == lines[0][0];
      assert t[|t| - 1] == Join(rest, "\n")[|Join(rest, "\n")| - 1];
    }
  }

  /**
    A link whose text is lines joined by newlines, each stripped, not blank
    and without a newline, reads back exactly those lines, in order.
  */
  lemma LinkLinesOfJoin(lines: seq<string>)
    requires lines != []
    requires forall k | 0 <= k < |lines| :: lines[k] != [] && IsStripped(lines[k]) && '\n' !in lines[k]
    ensures LinkLines(Join(lines, "\n")) == lines
  {
    var text := Join(lines, "\n");
    calc {
      LinkLines(text);
      NonBlank(SplitOn(Strip(text), '\n'));
      == { JoinedLinesStripped(lines); StripOfStripped(text); }
      NonBlank(SplitOn(text, '\n'));
      == { SplitOnJoin(lines, '\n'); }
      NonBlank(lines);
      == { NonBlankOfLines(lines); }
      lines;
    }
  }

  /** A link whose text has fewer than two line breaks has fewer than three lines. */
  lemma LinkLinesCount(text: string)
    ensures |LinkLines(text)| <= CountChar(Strip(text), '\n') + 1
  {
    SplitOnCount(Strip(text), '\n');
  }

  /** What the classification loop looks at. */
  datatype Entry = Entry(listing: Listing, lines: seq<string>, hasStrong: bool, scripture: Option<string>)

  /**
    `line.isupper()`, or more upper-case letters than 70% of the line's
    length on the chronological page; on the season pages the line must be
    longer than 3 characters and the share is 60%.
  */
  predicate TitleLike(listing: Listing, line: string) {
    IsUpperText(line)
    || (match listing
        case ChronologicalPage => 10 * CountUpper(line) > 7 * |line|
        case SeasonIndex => |line| > 3 && 10 * CountUpper(line) > 6 * |line|)
  }

  /**
    The loop passes over the date (the first line, on the chronological page
    only when it is in bold) and any line equal to a non-empty scripture.
  */
  predicate Skipped(e: Entry, i: nat)
    requires i < |e.lines|
  {
    (i == 0 && (e.listing == SeasonIndex || e.hasStrong))
    || (e.scripture.Some? && e.scripture.value != [] && e.lines[i] == e.scripture.value)
  }

  predicate TitleAt(e: Entry, i: nat)
    requires i < |e.lines|
  {
    !Skipped(e, i) && TitleLike(e.listing, e.lines[i])
  }

  // ---------------------------------------------------------------------
  // The classification loop
  // ---------------------------------------------------------------------

  /** The index of the last title-like line among the first `n`: the last one wins. */
  function LastTitle(e: Entry, n: nat): (r: Option<nat>)
    requires n <= |e.lines|
    ensures r.Some? ==> r.value < n && TitleAt(e, r.value)
    ensures r.Some? ==> forall j | r.value < j < n :: !TitleAt(e, j)
    ensures r.None? ==> forall j | 0 <= j < n :: !TitleAt(e, j)
  {
    if n == 0 then None
    else if TitleAt(e, n - 1) then Some(n - 1)
    else LastTitle(e, n - 1)
  }

  /** The lines among the first `n` that are neither skipped nor title-like, in order. */
  function OccasionLines(e: Entry, n: nat): (r: seq<string>)
    requires n <= |e.lines|
    ensures |r| <= n
    ensures forall k | 0 <= k < |r| :: !TitleLike(e.listing, r[k])
    ensures e.scripture.Some? && e.scripture.value != [] ==> e.scripture.value !in r
  {
    if n == 0 then []
    else
      OccasionLines(e, n - 1)
      + (if !Skipped(e, n - 1) && !TitleLike(e.listing, e.lines[n - 1]) then [e.lines[n - 1]] else [])
  }

  function TitleLine(e: Entry, n: nat): Option<string>
    requires n <= |e.lines|
  {
    match LastTitle(e, n)
    case None => None
    case Some(i) => Some(e.lines[i])
  }

  /**
    `for i, line in enumerate(lines)`: the title is reassigned at every
    title-like line and every other line that is not skipped is appended to
    the occasion lines.
  */
  method Classify(e: Entry) returns (title: Option<string>, occasionLines: seq<string>)
    ensures title == TitleLine(e, |e.lines|)
    ensures occasionLines == OccasionLines(e, |e.lines|)
  {
    title := None;
    occasionLines := [];
    for i := 0 to |e.lines|
      invariant title == TitleLine(e, i)
      invariant occasionLines == OccasionLines(e, i)
    {
      var line := e.lines[i];
      if Skipped(e, i) {
        continue;
      }
      if TitleLike(e.listing, line) {
        title := Some(line);
      } else {
        occasionLines := occasionLines + [line];
      }
    }
  }

  // ---------------------------------------------------------------------
  // The fallback and the rebuilt link
  // ---------------------------------------------------------------------

  /** `[l for l in ls if l != scripture]`. */
  function Without(ls: seq<string>, scripture: Option<string>): (r: seq<string>)
    ensures |r| <= |ls|
    ensures scripture.Some? ==> scripture.value !in r
    ensures scripture.None? ==> r == ls
    decreases |ls|
  {
    if ls == [] then []
    else
      Without(ls[..|ls| - 1], scripture)
      + (if scripture.Some? && ls[|ls| - 1] == scripture.value then [] else [ls[|ls| - 1]])
  }

  /**
    The title and occasion lines once the fallback has run. The title is
    then always one of the lines, none of which is empty, so the later
    `not title` test never skips an entry.
  */
  function Parts(e: Entry): (r: (string, seq<string>))
    requires |e.lines| >= 3
  {
    match TitleLine(e, |e.lines|)
    case Some(t) => (t, OccasionLines(e, |e.lines|))
    case None => (e.lines[|e.lines| - 1], Without(e.lines[1..|e.lines| - 1], e.scripture))
  }

  /** The rewritten link: title, display line and scripture. */
  datatype Rebuilt = Rebuilt(title: string, dateLine: string, scripture: Option<string>)

  /** `' — '.join(occasion_lines) if occasion_lines else ""`. */
  function Occasion(occasionLines: seq<string>): string {
    if occasionLines != [] then Join(occasionLines, " — ") else []
  }

  /** `f"{date} — {occasion}"` when there is an occasion, else the date alone. */
  function DateLine(date: string, occasion: string): (r: string)
    ensures StartsWith(r, date)
    ensures occasion == [] ==> r == date
    ensures occasion != [] ==> r[|date|..] == " — " + occasion
  {
    if occasion != [] then date + " — " + occasion else date
  }

  /** `em.get_text(strip=True) if em else None`. */
  function ScriptureOf(em: Option<string>): Option<string> {
    if em.Some? then Some(Strip(em.value)) else None
  }

  function EntryOf(listing: Listing, text: string, hasStrong: bool, em: Option<string>): Entry {
    Entry(listing, LinkLines(text), hasStrong, ScriptureOf(em))
  }

  /** A link whose text has at most one line break is left as it is. */
  lemma ShortLinkLeftAlone(listing: Listing, text: string, hasStrong: bool, em: Option<string>)
    requires CountChar(Strip(text), '\n') < 2
    ensures RebuiltOf(listing, text, hasStrong, em).None?
  {
    LinkLinesCount(text);
  }

  /**
    The rewritten link for one entry, or `None` when the entry is left as it
    is: fewer than three lines, or (on the chronological page) no bold date.
  */
  function RebuiltOf(listing: Listing, text: string, hasStrong: bool, em: Option<string>): (r: Option<Rebuilt>)
    ensures |LinkLines(text)| < 3 ==> r.None?
    ensures listing == ChronologicalPage && !hasStrong ==> r.None?
    ensures r.Some? ==> StartsWith(r.value.dateLine, LinkLines(text)[0])
  {
    var e := EntryOf(listing, text, hasStrong, em);
    if |e.lines| < 3 then None
    else
      var date := if listing == SeasonIndex || hasStrong then Some(e.lines[0]) else None;
      if date.None? then None
      else Some(Assemble(date.value, Parts(e), e.scripture))
  }

  /**
    The new link: the title in title case, the display line, and the
    scripture when it is not empty.
  */
  function Assemble(date: string, parts: (string, seq<string>), scripture: Option<string>): Rebuilt {
    Rebuilt(SmartCase.TitleCaseSmartOf(SmartCase.WebsiteOriginal, parts.0),
      DateLine(date, Occasion(parts.1)),
      if scripture.Some? && scripture.value != [] then scripture else None)
  }

  /** The rewrite of one entry, running the classification loop. */
  method RebuildLink(listing: Listing, text: string, hasStrong: bool, em: Option<string>) returns (r: Option<Rebuilt>)
    ensures r == RebuiltOf(listing, text, hasStrong, em)
  {
    var e := EntryOf(listing, text, hasStrong, em);
    if |e.lines| < 3 {
      return None;
    }
    var date := if listing == SeasonIndex || hasStrong then Some(e.lines[0]) else None;
    var found, occasionLines := Classify(e);
    var title := if found.Some? then found.value else e.lines[|e.lines| - 1];
    if found.None? {
      occasionLines := Without(e.lines[1..|e.lines| - 1], e.scripture);
    }
    PartsAfterFallback(e, found, occasionLines, title);
    if date.None? {
      return None;
    }
    r := Some(Assemble(date.value, (title, occasionLines), e.scripture));
  }

  /** The title and occasion lines the loop and the fallback leave are `Parts(e)`. */
  lemma PartsAfterFallback(e: Entry, found: Option<string>, occasionLines: seq<string>, title: string)
    requires |e.lines| >= 3 && found == TitleLine(e, |e.lines|)
    requires found.Some? ==> title == found.value && occasionLines == OccasionLines(e, |e.lines|)
    requires found.None? ==>
      title == e.lines[|e.lines| - 1] && occasionLines == Without(e.lines[1..|e.lines| - 1], e.scripture)
    ensures Parts(e) == (title, occasionLines)
  {
  }

  // ---------------------------------------------------------------------
  // Properties
  // ---------------------------------------------------------------------

  /** An all-capitals line is title-like on either kind of page. */
  lemma UpperLineIsTitleLike(listing: Listing, line: string)
    requires IsUpperText(line)
    ensures TitleLike(listing, line)
  {
  }

  /**
    When some line other than the date and the scripture is title-like,
    the title is the last such line and every other kept line is an
    occasion line.
  */
  lemma TitleIsLastTitleLike(e: Entry, i: nat)
    requires |e.lines| >= 3 && i < |e.lines| && TitleAt(e, i)
    ensures exists j | i <= j < |e.lines| ::
      (TitleAt(e, j) && Parts(e).0 == e.lines[j] && forall m | j < m < |e.lines| :: !TitleAt(e, m))
    ensures Parts(e).1 == OccasionLines(e, |e.lines|)
  {
    var j := LastTitle(e, |e.lines|).value;
    assert TitleAt(e, j) && Parts(e).0 == e.lines[j];
  }

  /**
    With no title-like line the last line is the title, and the occasion
    lines are the lines between the first and the last without the
    scripture.
  */
  lemma FallbackTitle(e: Entry)
    requires |e.lines| >= 3
    requires forall j | 0 <= j < |e.lines| :: !TitleAt(e, j)
    ensures Parts(e) == (e.lines[|e.lines| - 1], Without(e.lines[1..|e.lines| - 1], e.scripture))
  {
    assert LastTitle(e, |e.lines|).None?;
  }

  /** The scripture is never an occasion line, whichever way the title was found. */
  lemma ScriptureNotOccasion(e: Entry)
    requires |e.lines| >= 3
    requires e.scripture.Some? && e.scripture.value != []
    ensures e.scripture.value !in Parts(e).1
  {
  }

  /** Each occasion line is a line of the entry that is neither skipped nor title-like. */
  lemma {:induction false} OccasionsKept(e: Entry, n: nat, k: nat)
    requires n <= |e.lines| && k < |OccasionLines(e, n)|
    ensures exists j | 0 <= j < n :: !Skipped(e, j) && !TitleLike(e.listing, e.lines[j]) && OccasionLines(e, n)[k] == e.lines[j]
  {
    if k < |OccasionLines(e, n - 1)| {
      OccasionsKept(e, n - 1, k);
      assert OccasionLines(e, n)[k] == OccasionLines(e, n - 1)[k];
    } else {
      assert OccasionLines(e, n)[k] == e.lines[n - 1];
    }
  }

  /**
    A typical chronological entry: bold date, occasion, scripture in
    italics and the title in capitals.
  */
  function ExampleEntry(): Entry {
    Entry(ChronologicalPage,
      ["March 3, 2024", "Third Sunday in Lent", "John 2:13-22", "ZEAL FOR YOUR HOUSE"], true, Some("John 2:13-22"))
  }

  lemma ClassifyExample()
    ensures Parts(ExampleEntry()) == ("ZEAL FOR YOUR HOUSE", ["Third Sunday in Lent"])
  {
    ExampleTitle();
    ExampleOccasions();
  }

  lemma ExampleTitle()
    ensures TitleLine(ExampleEntry(), 4) == Some("ZEAL FOR YOUR HOUSE")
  {
    var e := ExampleEntry();
    CapitalsTitle(e.lines[3]);
    assert TitleAt(e, 3);
  }

  lemma ExampleOccasions()
    ensures OccasionLines(ExampleEntry(), 4) == ["Third Sunday in Lent"]
  {
    var e := ExampleEntry();
    OccasionNotTitle(e.lines[1]);
    CapitalsTitle(e.lines[3]);
    assert Skipped(e, 0) && Skipped(e, 2) && !Skipped(e, 1);
    OneOccasionOfFour(e);
  }

  /** Of four lines with the first and third skipped and the last title-like, the second is the only occasion line. */
  lemma OneOccasionOfFour(e: Entry)
    requires |e.lines| == 4 && Skipped(e, 0) && Skipped(e, 2) && !Skipped(e, 1)
    requires !TitleLike(e.listing, e.lines[1]) && TitleLike(e.listing, e.lines[3])
    ensures OccasionLines(e, 4) == [e.lines[1]]
  {
    assert OccasionLines(e, 1) == [];
    assert OccasionLines(e, 2) == [e.lines[1]];
    assert OccasionLines(e, 3) == [e.lines[1]];
  }

  lemma OccasionNotTitle(occasion: string)
    requires occasion == "Third Sunday in Lent"
    ensures !TitleLike(ChronologicalPage, occasion) && !TitleLike(SeasonIndex, occasion)
  {
    assert !NoLower(occasion) by {
      assert IsLowerChar(occasion[1]);
    }
    assert CountUpper(occasion) <= 11 by {
      assert forall k | 7 <= k < 16 :: !IsUpperChar(occasion[k]);
      NonUpperRun(occasion, 7, 16);
    }
  }

  lemma CapitalsTitle(title: string)
    requires title == "ZEAL FOR YOUR HOUSE"
    ensures IsUpperText(title)
  {
    assert IsUpperChar(title[0]);
  }

  /** A run of characters that are not capitals caps the number of capitals. */
  lemma {:induction false} NonUpperRun(s: string, i: nat, j: nat)
    requires i <= j <= |s|
    requires forall k | i <= k < j :: !IsUpperChar(s[k])
    ensures CountUpper(s) <= |s| - (j - i)
    decreases |s|
  {
    if i > 0 {
      NonUpperRun(s[1..], i - 1, j - 1);
    } else if j > 0 {
      NonUpperRun(s[1..], 0, j - 1);
    }
  }
}
