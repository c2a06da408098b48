/**
  rebuild_season_pages.py: the title read from a meditation's heading,
  the record collected for each meditation file (with the liturgical
  database's defaults), the grouping by season, and the seven season
  pages, each listing its meditations newest first under a count line.
*/
module SeasonPages {
  import opened Text
  import opened Scan
  import opened Grouping
  import opened Sorting
  import opened Seasons

  // ---------------------------------------------------------------------
  // The title: re.sub(r'\s+', ' ', title)
  // ---------------------------------------------------------------------

  /** Every run of whitespace replaced by one space. */
  function CollapseWhitespace(s: string): (r: string)
    ensures |r| <= |s|
    ensures r == [] <==> s == []
    ensures r != [] ==> (IsSpace(r[0]) <==> IsSpace(s[0]))
    decreases |s|
  {
    if s == [] then []
    else if IsSpace(s[0]) then
      var j := SkipSpaces(s, 0);
      " " + CollapseWhitespace(s[j..])
    else
      var k := SpanNonSpace(s, 0);
      s[..k] + CollapseWhitespace(s[k..])
  }

  /** The only whitespace in `r` is single spaces. */
  predicate SingleSpacesOnly(r: string) {
    (forall k | 0 <= k < |r| :: IsSpace(r[k]) ==> r[k] == ' ')
    && (forall k | 1 <= k < |r| :: IsSpace(r[k]) ==> !IsSpace(r[k - 1]))
  }

  /** After collapsing, the only whitespace left is single spaces. */
  lemma {:induction false} CollapseSingleSpaces(s: string)
    ensures SingleSpacesOnly(CollapseWhitespace(s))
    decreases |s|
  {
    if s != [] {
      var r := CollapseWhitespace(s);
      if IsSpace(s[0]) {
        var j := SkipSpaces(s, 0);
        var rest := CollapseWhitespace(s[j..]);
        CollapseSingleSpaces(s[j..]);
        assert r == " " + rest;
        assert rest != [] ==> !IsSpace(rest[0]);
        SpaceThen(rest);
      } else {
        var k := SpanNonSpace(s, 0);
        var rest := CollapseWhitespace(s[k..]);
        CollapseSingleSpaces(s[k..]);
        assert r == s[..k] + rest;
        assert rest != [] ==> IsSpace(rest[0]);
        WordThen(s[..k], rest);
      }
    }
  }

  lemma SpaceThen(rest: string)
    requires SingleSpacesOnly(rest) && (rest != [] ==> !IsSpace(rest[0]))
    ensures SingleSpacesOnly(" " + rest)
  {
    var r := " " + rest;
    forall k | 1 <= k < |r| ensures r[k] == rest[k - 1] {
    }
  }

  lemma WordThen(w: string, rest: string)
    requires w != [] && NoSpace(w)
    requires SingleSpacesOnly(rest) && (rest != [] ==> IsSpace(rest[0]))
    ensures SingleSpacesOnly(w + rest)
  {
    var r := w + rest;
    forall i | 0 <= i < |r| ensures IsSpace(r[i]) ==> r[i] == ' ' {
      if i < |w| {
        assert r[i] == w[i];
      } else {
        assert r[i] == rest[i - |w|];
      }
    }
    forall i | 1 <= i < |r| ensures IsSpace(r[i]) ==> !IsSpace(r[i - 1]) {
      if i < |w| {
        assert r[i] == w[i];
      } else if i > |w| {
        assert r[i] == rest[i - |w|] && r[i - 1] == rest[i - 1 - |w|];
      } else {
        assert r[i - 1] == w[|w| - 1];
      }
    }
  }

  /** Leading whitespace does not change the words `split()` finds. */
  lemma SplitAfterSpaces(s: string)
    ensures Split(s) == Split(s[SkipSpaces(s, 0)..])
  {
    var j := SkipSpaces(s, 0);
    assert s == s[..j] + s[j..];
    LStripSpaces(s[..j], s[j..]);
    SplitAfterLStrip(s);
  }

  /** Collapsing whitespace keeps the words. */
  lemma {:induction false} CollapseKeepsWords(s: string)
    ensures Split(CollapseWhitespace(s)) == Split(s)
    decreases |s|
  {
    if s == [] {
    } else if IsSpace(s[0]) {
      var j := SkipSpaces(s, 0);
      CollapseKeepsWords(s[j..]);
      SplitLeadingSpace(CollapseWhitespace(s[j..]));
      SplitAfterSpaces(s);
    } else {
      var k := SpanNonSpace(s, 0);
      CollapseKeepsWords(s[k..]);
      WordThenCollapsed(s, k);
    }
  }

  /** The step of `CollapseKeepsWords` for text that starts with a word. */
  lemma WordThenCollapsed(s: string, k: nat)
    requires s != [] && !IsSpace(s[0]) && k == SpanNonSpace(s, 0)
    requires Split(CollapseWhitespace(s[k..])) == Split(s[k..])
    ensures Split(CollapseWhitespace(s)) == Split(s)
  {
    var w, t := s[..k], s[k..];
    SplitOfWordStart(s, k);
    CollapseWordStart(s, k);
    if k == |s| {
      WordAlone(w, t);
    } else {
      WordThenSpace(w, t);
    }
    assert Split(w + CollapseWhitespace(t)) == [w] + Split(t);
  }

  lemma CollapseWordStart(s: string, k: nat)
    requires s != [] && !IsSpace(s[0]) && k == SpanNonSpace(s, 0)
    ensures CollapseWhitespace(s) == s[..k] + CollapseWhitespace(s[k..])
  {
  }

  lemma WordAlone(w: string, t: string)
    requires IsWord(w) && t == []
    ensures Split(w + CollapseWhitespace(t)) == [w] + Split(t)
  {
    assert w + CollapseWhitespace(t) == w;
    SplitWord(w);
  }

  lemma WordThenSpace(w: string, t: string)
    requires IsWord(w) && t != [] && IsSpace(t[0])
    requires Split(CollapseWhitespace(t)) == Split(t)
    ensures Split(w + CollapseWhitespace(t)) == [w] + Split(t)
  {
    var rest := CollapseTail(t);
    calc {
      Split(w + CollapseWhitespace(t));
      { assert w + CollapseWhitespace(t) == w + " " + rest; }
      Split(w + " " + rest);
      { SplitWordSpace(w, rest); }
      [w] + Split(rest);
      { SplitLeadingSpace(rest); }
      [w] + Split(" " + rest);
      [w] + Split(CollapseWhitespace(t));
      [w] + Split(t);
    }
  }

  /** `split()` of text that starts with a word. */
  lemma SplitOfWordStart(s: string, k: nat)
    requires s != [] && !IsSpace(s[0]) && k == SpanNonSpace(s, 0)
    ensures IsWord(s[..k]) && Split(s) == [s[..k]] + Split(s[k..])
  {
    LStripOfStripped(s);
  }

  /** Collapsing text that starts with whitespace gives a space and the rest collapsed. */
  lemma CollapseTail(t: string) returns (rest: string)
    requires t != [] && IsSpace(t[0])
    ensures CollapseWhitespace(t) == " " + rest
    ensures rest == CollapseWhitespace(t[SkipSpaces(t, 0)..])
  {
    rest := CollapseWhitespace(t[SkipSpaces(t, 0)..]);
  }

  /** Collapsing twice is collapsing once. */
  lemma {:induction false} CollapseIdempotent(s: string)
    ensures CollapseWhitespace(CollapseWhitespace(s)) == CollapseWhitespace(s)
    decreases |s|
  {
    if s == [] {
    } else if IsSpace(s[0]) {
      var j := SkipSpaces(s, 0);
      var rest := CollapseWhitespace(s[j..]);
      CollapseIdempotent(s[j..]);
      var r := " " + rest;
      SkipSpacesRun(r, 0, 1);
      assert r[1..] == rest;
    } else {
      var k := SpanNonSpace(s, 0);
      var w := s[..k];
      var rest := CollapseWhitespace(s[k..]);
      CollapseIdempotent(s[k..]);
      var r := w + rest;
      assert NoSpace(w);
      if rest == [] {
        SpanAllNonSpace(w, 0);
        assert r == w;
        assert r[..k] == w && r[k..] == [];
      } else {
        SpanPrefixWord(w, rest);
        assert r[..k] == w && r[k..] == rest;
      }
    }
  }

  /**
    The title of a meditation page: the heading's text, whitespace runs
    collapsed, and `None` when there is no heading or it is empty.
  */
  function TitleFromHeading(heading: Option<string>): (r: Option<string>)
    ensures r.None? <==> heading.None? || heading.value == []
    ensures r.Some? ==> Split(r.value) == Split(heading.value)
    ensures r.Some? ==> CollapseWhitespace(r.value) == r.value && SingleSpacesOnly(r.value)
  {
    match heading
    case None => None
    case Some(text) =>
      var t := CollapseWhitespace(text);
      CollapseKeepsWords(text);
      CollapseIdempotent(text);
      CollapseSingleSpaces(text);
      if t == [] then None else Some(t)
  }

  // ---------------------------------------------------------------------
  // collect_meditation_data
  // ---------------------------------------------------------------------

  /** One collected meditation. */
  datatype PageMed = PageMed(
    date: string, filename: string, title: string,
    occasion: string, year: string, season: string)

  function DateOf(m: PageMed): string { m.date }
  function SeasonOf(m: PageMed): string { m.season }

  /** The value stored for a key of a database entry, or the default `get` falls back to. */
  function OrDefault(v: Option<string>, default: string): string {
    if v.Some? then v.value else default
  }

  /** The file names ending in `.html`, in their listed order. */
  function HtmlFiles(files: seq<string>): (r: seq<string>)
    ensures |r| <= |files|
    ensures forall k | 0 <= k < |r| :: EndsWith(r[k], ".html")
    decreases |files|
  {
    if files == [] then []
    else
      var f := files[|files| - 1];
      HtmlFiles(files[..|files| - 1]) + (if EndsWith(f, ".html") then [f] else [])
  }

  /** The file name itself, the key `sorted` orders the listing by. */
  function Name(f: string): string { f }

  /**
    The record for one file: the date is the name without `.html`, the
    occasion, lectionary year and season come from the database entry
    with the defaults `''`, `'?'` and `'Ordinary Time'`; a file whose
    heading gives no title has no record.
  */
  function MedFor(db: map<string, LitInfo>, headings: map<string, string>, filename: string): (r: Option<PageMed>)
    ensures r.None? <==> TitleFromHeading(if filename in headings then Some(headings[filename]) else None).None?
    ensures r.Some? ==> r.value.filename == filename && r.value.title != []
    ensures r.Some? && ReplaceAll(filename, ".html", "") !in db ==>
      r.value.occasion == "" && r.value.year == "?" && r.value.season == "Ordinary Time"
  {
    var date := ReplaceAll(filename, ".html", "");
    var info := if date in db then db[date] else LitInfo(None, None, None);
    match TitleFromHeading(if filename in headings then Some(headings[filename]) else None)
    case None => None
    case Some(title) =>
      Some(PageMed(date, filename, title,
        OrDefault(info.occasion, ""), OrDefault(info.lectionaryYear, "?"), OrDefault(info.season, "Ordinary Time")))
  }

  /** The records of the files `fs`, in order, skipping files without a title. */
  function Collected(db: map<string, LitInfo>, headings: map<string, string>, fs: seq<string>): (r: seq<PageMed>)
    ensures |r| <= |fs|
    ensures forall k | 0 <= k < |r| :: r[k].title != [] && r[k].filename in fs
    decreases |fs|
  {
    if fs == [] then []
    else
      var init := Collected(db, headings, fs[..|fs| - 1]);
      var f := fs[|fs| - 1];
      assert forall x | x in fs[..|fs| - 1] :: x in fs;
      match MedFor(db, headings, f)
      case None => init
      case Some(m) => init + [m]
  }

  /**
    `collect_meditation_data`: the `.html` files of the listing in sorted
    order, one record appended for each that has a title. `headings`
    holds the heading text of each file that has a title heading.
  */
  method CollectMeditationData(files: seq<string>, db: map<string, LitInfo>, headings: map<string, string>)
    returns (data: seq<PageMed>)
    ensures data == Collected(db, headings, SortBy(HtmlFiles(files), Name, false))
  {
    var htmlFiles := SortBy(HtmlFiles(files), Name, false);
    data := [];
    for i := 0 to |htmlFiles|
      invariant data == Collected(db, headings, htmlFiles[..i])
    {
      assert htmlFiles[..i + 1][..i] == htmlFiles[..i];
      var filename := htmlFiles[i];
      var med := MedFor(db, headings, filename);
      if med.Some? {
        data := data + [med.value];
      }
    }
    assert htmlFiles[..|htmlFiles|] == htmlFiles;
  }

  /** Every collected record comes from an `.html` file of the listing and carries a title. */
  lemma CollectedFromListing(files: seq<string>, db: map<string, LitInfo>, headings: map<string, string>)
    ensures var data := Collected(db, headings, SortBy(HtmlFiles(files), Name, false));
      |data| <= |HtmlFiles(files)|
      && forall k | 0 <= k < |data| :: data[k].title != [] && data[k].filename in HtmlFiles(files)
  {
    var sorted := SortBy(HtmlFiles(files), Name, false);
    assert forall x | x in sorted :: x in multiset(sorted);
  }

  // ---------------------------------------------------------------------
  // Grouping and the season pages
  // ---------------------------------------------------------------------

  /** The seven seasons that get a page, in the order the pages are written, with their files. */
  const SeasonFiles: seq<(string, string)> := [
    ("Advent", "advent.html"), ("Christmas", "christmas.html"), ("Epiphany", "epiphany.html"),
    ("Lent", "lent.html"), ("Easter", "easter.html"), ("Ordinary Time", "ordinary-time.html"),
    ("Special", "special.html")]

  /** One page: its season, its file, its meditations newest first and its count line. */
  datatype SeasonPage = SeasonPage(season: string, file: string, meds: seq<PageMed>, count: string)

  /** The page `generate_season_html` makes for a season's meditations. */
  function PageFor(season: string, file: string, meds: seq<PageMed>): (p: SeasonPage)
    ensures p.season == season && p.file == file
    ensures multiset(p.meds) == multiset(meds) && SortedBy(p.meds, DateOf, true)
    ensures ReadCount(p.count) == Some(|meds|)
    ensures EndsWith(p.count, "meditations") <==> |meds| != 1
  {
    SortBySorted(meds, DateOf, true);
    CountTextRoundTrip(|meds|, true);
    SeasonPage(season, file, SortBy(meds, DateOf, true), CountText(|meds|, true))
  }

  /** The pages for the seasons of `table`, in order, skipping seasons without meditations. */
  function Pages(groups: seq<Group<string, PageMed>>, table: seq<(string, string)>): (r: seq<SeasonPage>)
    ensures |r| <= |table|
    decreases |table|
  {
    if table == [] then []
    else
      var init := Pages(groups, table[..|table| - 1]);
      var (season, file) := table[|table| - 1];
      var meds := Lookup(groups, season);
      if meds == [] then init else init + [PageFor(season, file, meds)]
  }

  /** The meditations of `data` grouped by season, in first-appearance order. */
  function BySeason(data: seq<PageMed>): seq<Group<string, PageMed>> {
    GroupBy(data, SeasonOf)
  }

  /**
    `rebuild_season_pages` once the data is collected: group by season,
    then make a page for each of the seven seasons that has meditations.
  */
  method RebuildSeasonPages(data: seq<PageMed>) returns (pages: seq<SeasonPage>)
    ensures pages == Pages(BySeason(data), SeasonFiles)
  {
    var bySeason := Accumulate(data, SeasonOf);
    pages := [];
    for i := 0 to |SeasonFiles|
      invariant pages == Pages(bySeason, SeasonFiles[..i])
    {
      assert SeasonFiles[..i + 1][..i] == SeasonFiles[..i];
      var (season, file) := SeasonFiles[i];
      var meditations := Lookup(bySeason, season);
      if meditations != [] {
        pages := pages + [PageFor(season, file, meditations)];
      }
    }
    assert SeasonFiles[..|SeasonFiles|] == SeasonFiles;
  }

  /** Every page lists all the meditations of its season and only them, newest first, under the right count. */
  lemma {:induction false} PagesShowSeasons(data: seq<PageMed>, table: seq<(string, string)>)
    ensures forall p | p in Pages(BySeason(data), table) ::
      (p.season, p.file) in table
      && p.meds != []
      && multiset(p.meds) == multiset(Filter(data, SeasonOf, p.season))
      && SortedBy(p.meds, DateOf, true)
      && ReadCount(p.count) == Some(|p.meds|)
    decreases |table|
  {
    if table != [] {
      var init := table[..|table| - 1];
      PagesShowSeasons(data, init);
      var (season, file) := table[|table| - 1];
      LookupGroupBy(data, SeasonOf, season);
      assert forall x | x in init :: x in table;
      assert table[|table| - 1] in table;
    }
  }

  /** A season of the table gets a page exactly when some meditation has that season. */
  lemma {:induction false} PageIffMeditations(data: seq<PageMed>, table: seq<(string, string)>, i: nat)
    requires i < |table|
    requires forall a, b | 0 <= a < b < |table| :: table[a].0 != table[b].0
    ensures (exists p | p in Pages(BySeason(data), table) :: p.season == table[i].0)
      <==> Filter(data, SeasonOf, table[i].0) != []
    decreases |table|
  {
    var last := |table| - 1;
    var init := table[..last];
    var pages := Pages(BySeason(data), table);
    var (season, file) := table[last];
    LookupGroupBy(data, SeasonOf, season);
    if i < last {
      PageIffMeditations(data, init, i);
      assert init[i] == table[i];
      assert table[i].0 != season;
    } else {
      PagesSeasons(data, init);
      assert forall j | 0 <= j < |init| :: init[j].0 != season;
    }
  }

  /** The seasons of the pages made from a table are seasons of that table. */
  lemma {:induction false} PagesSeasons(data: seq<PageMed>, table: seq<(string, string)>)
    ensures forall p | p in Pages(BySeason(data), table) :: exists j | 0 <= j < |table| :: table[j].0 == p.season
    decreases |table|
  {
    if table != [] {
      PagesSeasons(data, table[..|table| - 1]);
    }
  }

  /** Each collected meditation sits in exactly one season group: the group sizes add up to the number of meditations. */
  lemma BySeasonPartition(data: seq<PageMed>)
    ensures TotalSize(BySeason(data)) == |data|
    ensures forall g | g in BySeason(data) :: g.items != []
  {
    GroupsPartition(data, SeasonOf);
    GroupsNonEmpty(data, SeasonOf);
  }

  /** The seven seasons are distinct, so each gets at most one page. */
  lemma SeasonFilesDistinct()
    ensures forall a, b | 0 <= a < b < |SeasonFiles| :: SeasonFiles[a].0 != SeasonFiles[b].0
  {
  }
}
