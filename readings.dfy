/**
  The readings fixer of scripts/fix_meditation_readings.py: a meditation
  page whose readings block holds no scripture gets its readings from the
  page title ("readings | Threads of Grace") or, failing that, from the
  first content paragraph, and a title that holds the readings is replaced
  by the meditation's own heading.

  The page is modelled by the text of its parts: the `<title>` tag, the
  readings block, the title heading and the first content paragraph, each
  absent when the page has none.
*/
module Readings {
  import opened Text
  import opened Scan
  import opened Detect

  /** What the site appends to every page title. */
  const SiteSuffix := " | Threads of Grace"

  // ---------------------------------------------------------------------
  // extract_readings_from_title
  // ---------------------------------------------------------------------

  /**
    The stripped text before the first `|`. Without a `|` the source strips
    the title after removing the site suffix, which cannot occur then (see
    TitleHeadWithoutBar).
  */
  function TitleHead(title: string): (r: string)
    ensures '|' !in r
    ensures IsStripped(r)
  {
    var head := BeforeBar(title);
    StripKeepsAbsent(head, '|');
    var r := Strip(head);
    assert IsStripped(r);
    r
  }

  /** `title.split('|')[0]`, the whole title when it has no `|`. */
  function BeforeBar(title: string): (head: string)
    ensures '|' !in head
  {
    if '|' in title then SplitOn(title, '|')[0] else title
  }

  /** The branch without a `|` agrees with removing the site suffix first. */
  lemma TitleHeadWithoutBar(title: string)
    requires '|' !in title
    ensures TitleHead(title) == Strip(ReplaceAll(title, SiteSuffix, ""))
  {
    assert '|' == SiteSuffix[1];
    ReplaceWithoutBar(title, SiteSuffix);
  }

  /** A replacement whose pattern holds a `|` changes nothing in text without one. */
  lemma {:induction false} ReplaceWithoutBar(s: string, pat: string)
    requires '|' !in s && '|' in pat
    ensures ReplaceAll(s, pat, "") == s
    decreases |s|
  {
    if |s| >= |pat| {
      var k :| 0 <= k < |pat| && pat[k] == '|';
      assert s[..|pat|][k] == s[k] && s[k] in s;
      ReplaceWithoutBar(s[1..], pat);
      assert [s[0]] + s[1..] == s;
    }
  }

  /** `extract_readings_from_title`: the head of the title when it names a book. */
  function ReadingsFromTitle(title: string): (r: Option<string>)
    ensures r.Some? <==> title != [] && ContainsScripture(TitleHead(title))
    ensures r.Some? ==> r.value == TitleHead(title) && ContainsScripture(r.value)
  {
    if title == [] then None
    else
      var readings := TitleHead(title);
      if ContainsScripture(readings) then Some(readings) else None
  }

  /** Reading the readings back out of a title the site built from them. */
  lemma ReadingsFromSiteTitle(readings: string)
    requires IsStripped(readings) && '|' !in readings && ContainsScripture(readings)
    ensures ReadingsFromTitle(readings + SiteSuffix) == Some(readings)
  {
    TitleHeadOfSiteTitle(readings);
  }

  lemma TitleHeadOfSiteTitle(readings: string)
    requires IsStripped(readings) && '|' !in readings && readings != []
    ensures TitleHead(readings + SiteSuffix) == readings
  {
    SiteTitleHead(readings);
    StripTrailingSpace(readings);
  }

  /** The part of a site title before its `|` is the readings and one space. */
  lemma SiteTitleHead(readings: string)
    requires '|' !in readings
    ensures '|' in readings + SiteSuffix
    ensures SplitOn(readings + SiteSuffix, '|')[0] == readings + " "
  {
    var title := readings + SiteSuffix;
    var rest := SiteSuffix[2..];
    assert SiteSuffix == " " + ['|'] + rest;
    assert title == (readings + " ") + ['|'] + rest;
    assert title[|readings| + 1] == '|';
    SplitOnPrefix(readings + " ", rest, '|');
  }

  /** One trailing space is stripped off text that is already stripped. */
  lemma StripTrailingSpace(s: string)
    requires IsStripped(s) && s != []
    ensures Strip(s + " ") == s
  {
    var t := s + " ";
    assert t[0] == s[0];
    LStripOfStripped(t);
    assert t[..|t| - 1] == s;
    RStripOfStripped(s);
  }

  // ---------------------------------------------------------------------
  // extract_readings_from_content
  // ---------------------------------------------------------------------

  /** Paragraphs at least this long are body text. */
  const MaxReadingsLength := 200

  /** The opening words of `^(The|In|When|…|They)\s`, case as written. */
  const OpeningCount := 12

  function Opening(n: nat): (w: string)
    requires n < OpeningCount
    ensures w != []
  {
    if n == 0 then "The" else if n == 1 then "In" else if n == 2 then "When"
    else if n == 3 then "As" else if n == 4 then "Our" else if n == 5 then "Today"
    else if n == 6 then "This" else if n == 7 then "It" else if n == 8 then "We"
    else if n == 9 then "He" else if n == 10 then "She" else "They"
  }

  /** The text opens with one of the listed words followed by whitespace. */
  predicate OpensLikeProse(t: string) {
    exists n | 0 <= n < OpeningCount ::
      StartsWith(t, Opening(n)) && |Opening(n)| < |t| && IsSpace(t[|Opening(n)|])
  }

  /**
    `extract_readings_from_content`, given the text of the first paragraph
    of the meditation body (absent when there is none): the stripped text,
    when it is short, names a book and does not open like prose.
  */
  function ReadingsFromContent(firstParagraph: Option<string>): (r: Option<string>)
    ensures r.Some? <==> (firstParagraph.Some? && |Strip(firstParagraph.value)| < MaxReadingsLength
      && ContainsScripture(Strip(firstParagraph.value)) && !OpensLikeProse(Strip(firstParagraph.value)))
    ensures r.Some? ==> r.value == Strip(firstParagraph.value)
  {
    if firstParagraph.None? then None
    else
      var text := Strip(firstParagraph.value);
      if |text| < MaxReadingsLength && ContainsScripture(text) && !OpensLikeProse(text) then Some(text)
      else None
  }

  /** A paragraph that opens like prose is never taken for the readings. */
  lemma ProseIsNotReadings(p: string, n: nat)
    requires n < OpeningCount && IsStripped(p)
    requires StartsWith(p, Opening(n)) && |Opening(n)| < |p| && IsSpace(p[|Opening(n)|])
    ensures ReadingsFromContent(Some(p)) == None
  {
    StripOfStripped(p);
  }

  // ---------------------------------------------------------------------
  // fix_meditation_file
  // ---------------------------------------------------------------------

  /** The new readings: from the title first, from the content second. */
  function NewReadings(titleText: string, firstParagraph: Option<string>): (r: Option<string>)
    ensures r.Some? ==> ContainsScripture(r.value) && IsStripped(r.value)
    ensures ReadingsFromTitle(titleText).Some? ==> r == ReadingsFromTitle(titleText)
    ensures ReadingsFromTitle(titleText).None? ==> r == ReadingsFromContent(firstParagraph)
  {
    var fromTitle := ReadingsFromTitle(titleText);
    if fromTitle.Some? then fromTitle else ReadingsFromContent(firstParagraph)
  }

  /** One recorded change. */
  datatype Change = ReadingsChanged(from: string, to: string) | TitleChanged(from: string, to: string)

  /** The heading's stripped text, empty when the page has no heading. */
  function MeditationTitle(heading: Option<string>): string {
    if heading.Some? then Strip(heading.value) else []
  }

  /** The changes `fix_meditation_file` records for a page, in order. */
  function Changes(titleTag: Option<string>, readingsDiv: Option<string>,
                   heading: Option<string>, firstParagraph: Option<string>): seq<Change>
  {
    if titleTag.None? || readingsDiv.None? then []
    else ChangesFor(Strip(titleTag.value), Strip(readingsDiv.value), MeditationTitle(heading), firstParagraph)
  }

  /** The changes for a page with both parts, given their stripped text. */
  function ChangesFor(titleText: string, current: string, meditationTitle: string,
                      firstParagraph: Option<string>): seq<Change>
  {
    if ContainsScripture(current) then []
    else
      match NewReadings(titleText, firstParagraph)
      case None => []
      case Some(readings) => ReadingsFix(current, readings) + TitleFix(titleText, meditationTitle)
  }

  /** The readings change, recorded when the new readings differ from the current ones. */
  function ReadingsFix(current: string, readings: string): (r: seq<Change>)
    ensures |r| <= 1
    ensures ContainsScripture(readings) && !ContainsScripture(current) ==> r == [ReadingsChanged(current, readings)]
  {
    if readings != current then [ReadingsChanged(current, readings)] else []
  }

  /**
    The title change: a title that names a book becomes the heading plus the
    site suffix, when the heading is not empty and the title differs.
  */
  function TitleFix(titleText: string, meditationTitle: string): (r: seq<Change>)
    ensures |r| <= 1
    ensures r != [] ==> r == [TitleChanged(titleText, meditationTitle + SiteSuffix)]
  {
    var newTitle := meditationTitle + SiteSuffix;
    if ContainsScripture(titleText) && meditationTitle != [] && titleText != newTitle
    then [TitleChanged(titleText, newTitle)] else []
  }

  /** The page parts after the recorded changes are written. */
  function Apply(titleTag: Option<string>, readingsDiv: Option<string>, changes: seq<Change>): (Option<string>, Option<string>)
    decreases |changes|
  {
    if changes == [] then (titleTag, readingsDiv)
    else match changes[0]
      case ReadingsChanged(_, to) => Apply(titleTag, Some(to), changes[1..])
      case TitleChanged(_, to) => Apply(Some(to), readingsDiv, changes[1..])
  }

  /**
    Nothing changes when the title tag or the readings block is missing,
    when the readings already name a book, or when neither source yields
    readings; otherwise the first change always replaces the readings,
    since the new ones name a book and the old ones do not.
  */
  lemma ChangesWhen(titleText: string, current: string, meditationTitle: string, firstParagraph: Option<string>)
    ensures ChangesFor(titleText, current, meditationTitle, firstParagraph) != [] <==>
      !ContainsScripture(current) && NewReadings(titleText, firstParagraph).Some?
    ensures ChangesFor(titleText, current, meditationTitle, firstParagraph) != [] ==>
      ChangesFor(titleText, current, meditationTitle, firstParagraph)[0]
        == ReadingsChanged(current, NewReadings(titleText, firstParagraph).value)
  {
    var readings := NewReadings(titleText, firstParagraph);
    if !ContainsScripture(current) && readings.Some? {
      assert ChangesFor(titleText, current, meditationTitle, firstParagraph)
        == [ReadingsChanged(current, readings.value)] + TitleFix(titleText, meditationTitle);
    }
  }

  lemma MissingPartNoChanges(titleTag: Option<string>, readingsDiv: Option<string>,
                             heading: Option<string>, firstParagraph: Option<string>)
    requires titleTag.None? || readingsDiv.None?
    ensures Changes(titleTag, readingsDiv, heading, firstParagraph) == []
  {
  }

  /** The title is only ever replaced by the heading plus the site suffix, and only when it names a book. */
  lemma TitleChangeShape(titleText: string, current: string, meditationTitle: string,
                         firstParagraph: Option<string>, k: nat)
    requires k < |ChangesFor(titleText, current, meditationTitle, firstParagraph)|
    requires ChangesFor(titleText, current, meditationTitle, firstParagraph)[k].TitleChanged?
    ensures ContainsScripture(titleText) && meditationTitle != []
    ensures ChangesFor(titleText, current, meditationTitle, firstParagraph)[k]
      == TitleChanged(titleText, meditationTitle + SiteSuffix)
  {
    var changes := ChangesFor(titleText, current, meditationTitle, firstParagraph);
    assert !ContainsScripture(current) && NewReadings(titleText, firstParagraph).Some?;
    var readings := NewReadings(titleText, firstParagraph).value;
    var f := ReadingsFix(current, readings);
    var t := TitleFix(titleText, meditationTitle);
    assert changes == f + t;
    assert forall j | 0 <= j < |f| :: f[j].ReadingsChanged?;
    assert k >= |f|;
    assert changes[k] == t[k - |f|];
  }

  /** Running the fixer on a page it has already fixed changes nothing more. */
  lemma FixIsIdempotent(titleTag: Option<string>, readingsDiv: Option<string>,
                        heading: Option<string>, firstParagraph: Option<string>)
    ensures
      var changes := Changes(titleTag, readingsDiv, heading, firstParagraph);
      var after := Apply(titleTag, readingsDiv, changes);
      Changes(after.0, after.1, heading, firstParagraph) == []
  {
    var changes := Changes(titleTag, readingsDiv, heading, firstParagraph);
    if changes != [] {
      var after := Apply(titleTag, readingsDiv, changes);
      var readings := AfterFix(titleTag, readingsDiv, heading, firstParagraph);
      SecondRun(after.0, readings, heading, firstParagraph);
    }
  }

  /** After a run that changed something, both parts are present and the readings name a book. */
  lemma AfterFix(titleTag: Option<string>, readingsDiv: Option<string>,
                 heading: Option<string>, firstParagraph: Option<string>) returns (readings: string)
    requires Changes(titleTag, readingsDiv, heading, firstParagraph) != []
    ensures ContainsScripture(readings) && IsStripped(readings)
    ensures Apply(titleTag, readingsDiv, Changes(titleTag, readingsDiv, heading, firstParagraph)).0.Some?
    ensures Apply(titleTag, readingsDiv, Changes(titleTag, readingsDiv, heading, firstParagraph)).1 == Some(readings)
  {
    var titleText := Strip(titleTag.value);
    var current := Strip(readingsDiv.value);
    var m := MeditationTitle(heading);
    assert Changes(titleTag, readingsDiv, heading, firstParagraph) == ChangesFor(titleText, current, m, firstParagraph);
    readings := ChangedShape(titleText, current, m, firstParagraph);
    ApplyInTwoParts(titleTag, readingsDiv, [ReadingsChanged(current, readings)], TitleFix(titleText, m));
  }

  /** A non-empty list of changes is the readings change followed by the title fix. */
  lemma ChangedShape(titleText: string, current: string, meditationTitle: string, firstParagraph: Option<string>)
    returns (readings: string)
    requires ChangesFor(titleText, current, meditationTitle, firstParagraph) != []
    ensures ContainsScripture(readings) && IsStripped(readings)
    ensures ChangesFor(titleText, current, meditationTitle, firstParagraph)
      == [ReadingsChanged(current, readings)] + TitleFix(titleText, meditationTitle)
  {
    readings := NewReadings(titleText, firstParagraph).value;
  }

  /** A page whose readings already name a book needs no change. */
  lemma SecondRun(titleTag: Option<string>, readings: string, heading: Option<string>, firstParagraph: Option<string>)
    requires ContainsScripture(readings) && IsStripped(readings)
    ensures Changes(titleTag, Some(readings), heading, firstParagraph) == []
  {
    StripOfStripped(readings);
    if titleTag.Some? {
      AlreadyNamed(Strip(titleTag.value), readings, MeditationTitle(heading), firstParagraph);
    }
  }

  lemma AlreadyNamed(titleText: string, current: string, meditationTitle: string, firstParagraph: Option<string>)
    requires ContainsScripture(current)
    ensures ChangesFor(titleText, current, meditationTitle, firstParagraph) == []
  {
  }

  /** A meditation page, as far as the readings fixer reads and writes it. */
  class MeditationPage {
    var titleTag: Option<string>
    var readingsDiv: Option<string>
    const heading: Option<string>
    const firstParagraph: Option<string>

    constructor(titleTag: Option<string>, readingsDiv: Option<string>,
                heading: Option<string>, firstParagraph: Option<string>)
      ensures this.titleTag == titleTag && this.readingsDiv == readingsDiv
      ensures this.heading == heading && this.firstParagraph == firstParagraph
    {
      this.titleTag := titleTag;
      this.readingsDiv := readingsDiv;
      this.heading := heading;
      this.firstParagraph := firstParagraph;
    }

    /**
      `fix_meditation_file`: records the changes the page needs and, unless
      this is a dry run, makes them; reports whether there were any.
    */
    method Fix(dryRun: bool) returns (changed: bool, changes: seq<Change>)
      modifies this
      ensures changes == Changes(old(titleTag), old(readingsDiv), heading, firstParagraph)
      ensures changed <==> changes != []
      ensures dryRun ==> titleTag == old(titleTag) && readingsDiv == old(readingsDiv)
      ensures !dryRun ==> (titleTag, readingsDiv) == Apply(old(titleTag), old(readingsDiv), changes)
    {
      if titleTag.None? || readingsDiv.None? {
        return false, [];
      }
      var titleText := Strip(titleTag.value);
      var current := Strip(readingsDiv.value);
      if ContainsScripture(current) {
        return false, [];
      }
      var newReadings := ReadingsFromTitle(titleText);
      if newReadings.None? {
        newReadings := ReadingsFromContent(firstParagraph);
      }
      if newReadings.None? {
        return false, [];
      }
      var meditationTitle := MeditationTitle(heading);
      var titleNeedsFix := ContainsScripture(titleText) && meditationTitle != [];
      var readingsPart := [];
      if newReadings.value != current {
        readingsPart := [ReadingsChanged(current, newReadings.value)];
        if !dryRun {
          readingsDiv := Some(newReadings.value);
        }
      }
      var titlePart := [];
      if titleNeedsFix {
        var newTitle := meditationTitle + SiteSuffix;
        if titleText != newTitle {
          titlePart := [TitleChanged(titleText, newTitle)];
          if !dryRun {
            titleTag := Some(newTitle);
          }
        }
      }
      changes := readingsPart + titlePart;
      FixAgrees(titleText, current, meditationTitle, firstParagraph, newReadings.value, readingsPart, titlePart);
      ApplyInTwoParts(old(titleTag), old(readingsDiv), readingsPart, titlePart);
      changed := changes != [];
    }
  }

  /** The two parts the method records are the changes of the specification. */
  lemma FixAgrees(titleText: string, current: string, meditationTitle: string, firstParagraph: Option<string>,
                  readings: string, readingsPart: seq<Change>, titlePart: seq<Change>)
    requires !ContainsScripture(current) && NewReadings(titleText, firstParagraph) == Some(readings)
    requires readingsPart == if readings != current then [ReadingsChanged(current, readings)] else []
    requires titlePart == if ContainsScripture(titleText) && meditationTitle != [] && titleText != meditationTitle + SiteSuffix
      then [TitleChanged(titleText, meditationTitle + SiteSuffix)] else []
    ensures ChangesFor(titleText, current, meditationTitle, firstParagraph) == readingsPart + titlePart
  {
  }

  /** Applying at most one readings change and then at most one title change. */
  lemma ApplyInTwoParts(titleTag: Option<string>, readingsDiv: Option<string>, readingsPart: seq<Change>, titlePart: seq<Change>)
    requires |readingsPart| <= 1 && (readingsPart != [] ==> readingsPart[0].ReadingsChanged?)
    requires |titlePart| <= 1 && (titlePart != [] ==> titlePart[0].TitleChanged?)
    ensures Apply(titleTag, readingsDiv, readingsPart + titlePart)
      == (if titlePart != [] then Some(titlePart[0].to) else titleTag,
          if readingsPart != [] then Some(readingsPart[0].to) else readingsDiv)
  {
    var changes := readingsPart + titlePart;
    var rd := if readingsPart != [] then Some(readingsPart[0].to) else readingsDiv;
    if readingsPart != [] {
      assert changes[1..] == titlePart;
      assert Apply(titleTag, readingsDiv, changes) == Apply(titleTag, rd, titlePart);
    } else {
      assert changes == titlePart;
    }
    if titlePart != [] {
      assert titlePart[1..] == [];
      assert Apply(titleTag, rd, titlePart) == Apply(Some(titlePart[0].to), rd, []);
    }
  }
}
