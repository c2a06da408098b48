/**
  The index pages `regenerate_all_indexes.py` rebuilds from the meditation
  files: the record read from each file, the chronological and by-year
  listings grouped by year, the season pages and the by-season counts.
  The page markup is not modelled; the model keeps what each page lists,
  in which order, and the counts it shows.
*/
module Indexes {
  import opened Text
  import opened Dates
  import opened Grouping
  import opened Sorting
  import opened Occasions

  // ---------------------------------------------------------------------
  // extract_meditation_data
  // ---------------------------------------------------------------------

  /** What the script reads from one meditation file. */
  datatype IndexEntry = IndexEntry(
    filename: string, date: Option<string>, title: string,
    occasion: string, occasionFull: string, season: string, readings: string)

  /** `re.match(r'(\d{4}-\d{2}-\d{2})\.html', filename)`: the leading date, or `None`. */
  function DateFromFilename(f: string): (r: Option<string>)
    ensures r.Some? ==> IsDate(r.value) && StartsWith(f, r.value + ".html")
    ensures r.None? ==> forall d | IsDate(d) :: !StartsWith(f, d + ".html")
  {
    if IsDateAt(f, 0) && OccursAt(f, ".html", 10) then
      assert f[..15] == f[..10] + ".html";
      Some(f[..10])
    else
      assert forall d | IsDate(d) && StartsWith(f, d + ".html") :: IsDateAt(f, 0) && OccursAt(f, ".html", 10) by {
        forall d | IsDate(d) && StartsWith(f, d + ".html") ensures IsDateAt(f, 0) && OccursAt(f, ".html", 10) {
          DatedNameParts(f, d);
        }
      }
      None
  }

  lemma DatedNameParts(f: string, d: string)
    requires IsDate(d) && StartsWith(f, d + ".html")
    ensures IsDateAt(f, 0) && OccursAt(f, ".html", 10) && f[..10] == d
  {
    assert f[..15] == d + ".html";
    assert f[..10] == f[..15][..10];
    assert f[10..15] == f[..15][10..];
  }

  /** The name of a dated file gives its date back, whatever follows `.html`. */
  lemma DateFromDatedName(d: string, rest: string)
    requires IsDate(d)
    ensures DateFromFilename(d + ".html" + rest) == Some(d)
  {
    var f := d + ".html" + rest;
    assert f[..15] == d + ".html";
    DatedNameParts(f, d);
  }

  /** `elem.get_text().strip() if elem else ''`. */
  function ElementText(elem: Option<string>): (r: string)
    ensures IsStripped(r)
    ensures elem.None? ==> r == []
  {
    if elem.Some? then Strip(elem.value) else []
  }

  /**
    The record for one file, from the texts of its title, occasion and
    readings elements: the occasion line splits at `•` into the occasion
    (without a trailing ", Year X") and the season.
  */
  function ExtractEntry(filename: string, titleElem: Option<string>, occasionElem: Option<string>,
                        readingsElem: Option<string>): (r: IndexEntry)
    ensures r.filename == filename && r.date == DateFromFilename(filename)
    ensures IsStripped(r.title) && IsStripped(r.occasionFull) && IsStripped(r.readings)
    ensures '•' !in r.occasionFull ==> r.occasion == r.occasionFull && r.season == []
    ensures '•' !in r.season && '•' !in r.occasion
    ensures r.date.Some? ==> IsDate(r.date.value)
  {
    var full := ElementText(occasionElem);
    var parts := SplitOccasion(full);
    IndexEntry(filename, DateFromFilename(filename), ElementText(titleElem),
      parts.0, full, parts.1, ElementText(readingsElem))
  }

  /** An occasion line written as "occasion • season" reads back as that occasion and season. */
  lemma ExtractReadsBack(filename: string, head: string, season: string)
    requires IsStripped(head) && IsStripped(season) && head != [] && season != []
    requires '•' !in head && '•' !in season
    ensures var e := ExtractEntry(filename, None, Some(head + " • " + season), None);
      e.occasion == Strip(StripYearSuffix(head)) && e.season == season
  {
    var line := head + " • " + season;
    assert line[0] == head[0] && line[|line| - 1] == season[|season| - 1];
    StripOfStripped(line);
    ReadBack(head, season);
  }

  /** Records that came out of `ExtractEntry`: a date, when present, is a real date. */
  predicate Extracted(all: seq<IndexEntry>) {
    forall k | 0 <= k < |all| :: all[k].date.Some? ==> IsDate(all[k].date.value)
  }

  // ---------------------------------------------------------------------
  // Sorting and grouping by year
  // ---------------------------------------------------------------------

  /** `x['date'] or ''`, the key of the descending sort. */
  function DateKey(e: IndexEntry): string {
    if e.date.Some? then e.date.value else []
  }

  function IsDated(e: IndexEntry): bool {
    e.date.Some?
  }

  /** `entry['date'][:4]`. */
  function YearKey(e: IndexEntry): string {
    var d := DateKey(e);
    if |d| < 4 then d else d[..4]
  }

  /** `sorted(all_data, key=lambda x: x['date'] or '', reverse=True)`. */
  function Chronological(all: seq<IndexEntry>): (r: seq<IndexEntry>)
    ensures multiset(r) == multiset(all) && |r| == |all|
    ensures SortedBy(r, DateKey, true)
  {
    SortBySorted(all, DateKey, true);
    SortBy(all, DateKey, true)
  }

  /** The dated entries, newest first. */
  function Dated(all: seq<IndexEntry>): seq<IndexEntry> {
    Filter(Chronological(all), IsDated, true)
  }

  /** `by_year`, the groups the year loop builds. */
  function ByYear(all: seq<IndexEntry>): seq<Group<string, IndexEntry>> {
    GroupBy(Dated(all), YearKey)
  }

  /**
    The sort and the `defaultdict(list)` loop of both year listings: the
    entries newest first, and the dated ones filed under their year.
  */
  method GroupByYear(all: seq<IndexEntry>) returns (sorted: seq<IndexEntry>, byYear: seq<Group<string, IndexEntry>>)
    ensures sorted == Chronological(all)
    ensures byYear == ByYear(all)
  {
    sorted := Chronological(all);
    byYear := FileByYear(sorted);
  }

  /** The `defaultdict(list)` loop: every dated entry, in order, filed under its year. */
  method FileByYear(sorted: seq<IndexEntry>) returns (byYear: seq<Group<string, IndexEntry>>)
    ensures byYear == GroupBy(Filter(sorted, IsDated, true), YearKey)
  {
    byYear := [];
    for i := 0 to |sorted|
      invariant byYear == GroupBy(Filter(sorted[..i], IsDated, true), YearKey)
    {
      var entry := sorted[i];
      YearStep(sorted, i, byYear);
      if entry.date.Some? {
        byYear := File(byYear, YearKey(entry), entry);
      }
    }
    assert sorted[..|sorted|] == sorted;
  }

  /** One turn of the loop files a dated entry under its year and skips an undated one. */
  lemma YearStep(sorted: seq<IndexEntry>, i: nat, byYear: seq<Group<string, IndexEntry>>)
    requires i < |sorted| && byYear == GroupBy(Filter(sorted[..i], IsDated, true), YearKey)
    ensures GroupBy(Filter(sorted[..i + 1], IsDated, true), YearKey)
      == if sorted[i].date.Some? then File(byYear, YearKey(sorted[i]), sorted[i]) else byYear
  {
    FilterPrefixStep(sorted, i, IsDated, true);
    if sorted[i].date.Some? {
      GroupBySnoc(Filter(sorted[..i], IsDated, true), sorted[i], YearKey);
    } else {
      assert Filter(sorted[..i], IsDated, true) + [] == Filter(sorted[..i], IsDated, true);
    }
  }

  /** The key order of a string list sorted by itself. */
  function Itself(s: string): string {
    s
  }

  /** `sorted(by_year.keys(), reverse=True)`. */
  function Years(all: seq<IndexEntry>): seq<string> {
    SortBy(Keys(ByYear(all)), Itself, true)
  }

  /** One year heading: the year, its entries and the count shown beside it. */
  datatype YearSection = YearSection(year: string, entries: seq<IndexEntry>, count: nat)

  /** `sorted(by_year[year], key=lambda x: x['date'], reverse=True)` and its length. */
  function SectionFor(byYear: seq<Group<string, IndexEntry>>, year: string): YearSection {
    var es := SortBy(Lookup(byYear, year), DateKey, true);
    YearSection(year, es, |es|)
  }

  function SectionsFor(byYear: seq<Group<string, IndexEntry>>, years: seq<string>): seq<YearSection> {
    seq(|years|, k requires 0 <= k < |years| => SectionFor(byYear, years[k]))
  }

  function YearSections(all: seq<IndexEntry>): seq<YearSection> {
    SectionsFor(ByYear(all), Years(all))
  }

  /**
    `generate_by_year_html` (and the year listing of the chronological
    page): the total shown at the top and one section per year heading.
  */
  method BuildByYear(all: seq<IndexEntry>) returns (total: nat, sections: seq<YearSection>)
    ensures total == |all|
    ensures sections == YearSections(all)
  {
    var sorted, byYear := GroupByYear(all);
    var years := SortBy(Keys(byYear), Itself, true);
    total := |sorted|;
    sections := BuildSections(byYear, years);
  }

  /** The `for year in years` loop: one section per year, in order. */
  method BuildSections(byYear: seq<Group<string, IndexEntry>>, years: seq<string>) returns (sections: seq<YearSection>)
    ensures sections == SectionsFor(byYear, years)
  {
    sections := [];
    for i := 0 to |years|
      invariant sections == SectionsFor(byYear, years[..i])
    {
      assert years[..i + 1][..i] == years[..i];
      sections := sections + [SectionFor(byYear, years[i])];
    }
    assert years[..|years|] == years;
  }

  /**
    The count beside a year heading is the number of dated entries whose
    date starts with that year, and the section lists exactly those
    entries, newest first.
  */
  lemma YearSectionCount(all: seq<IndexEntry>, k: nat)
    requires k < |YearSections(all)|
    ensures var s := YearSections(all)[k];
      s.count == |Filter(Filter(all, IsDated, true), YearKey, s.year)|
      && multiset(s.entries) == multiset(Filter(Filter(all, IsDated, true), YearKey, s.year))
      && SortedBy(s.entries, DateKey, true)
  {
    var year := Years(all)[k];
    var sorted := Chronological(all);
    LookupGroupBy(Dated(all), YearKey, year);
    FilterPermutation(sorted, all, IsDated, true);
    FilterPermutation(Dated(all), Filter(all, IsDated, true), YearKey, year);
    var es := Filter(Filter(all, IsDated, true), YearKey, year);
    assert |multiset(es)| == |es|;
    assert |multiset(Lookup(ByYear(all), year))| == |Lookup(ByYear(all), year)|;
    SortBySorted(Lookup(ByYear(all), year), DateKey, true);
  }

  /** The year headings appear once each, strictly newest first. */
  lemma YearsDescending(all: seq<IndexEntry>)
    ensures Distinct(Years(all))
    ensures forall i, j | 0 <= i < j < |Years(all)| :: LexLess(Years(all)[j], Years(all)[i])
  {
    var ks := Keys(ByYear(all));
    var ys := Years(all);
    KeysOfGroupBy(Dated(all), YearKey);
    KeysOfDistinct(Dated(all), YearKey);
    DistinctPermutation(ks, ys);
    SortBySorted(ks, Itself, true);
    forall i, j | 0 <= i < j < |ys| ensures LexLess(ys[j], ys[i]) {
      LexLessTotal(ys[i], ys[j]);
    }
  }

  /** Every dated entry has its year among the headings. */
  lemma EveryYearShown(all: seq<IndexEntry>, e: IndexEntry)
    requires e in all && e.date.Some?
    ensures YearKey(e) in Years(all)
  {
    var d := Dated(all);
    DatedMember(all, e);
    var j :| 0 <= j < |d| && d[j] == e;
    KeysOfGroupBy(d, YearKey);
    assert YearKey(d[j]) in KeysOf(d, YearKey);
    assert YearKey(e) in multiset(Keys(ByYear(all)));
  }

  // ---------------------------------------------------------------------
  // The date range of the chronological page
  // ---------------------------------------------------------------------

  /**
    The range as the chronological page computes it: the dates of the last
    and the first entries of the descending order.
  */
  function RangeAsWritten(all: seq<IndexEntry>): (r: Option<(Option<string>, Option<string>)>)
    ensures r.None? <==> all == []
  {
    var s := Chronological(all);
    if s == [] then None else Some((s[|s| - 1].date, s[0].date))
  }

  /**
    One undated entry is enough for the range to start from no date at
    all: the empty key sorts after every date, so the last entry is undated
    and the page hands `None` to the date parser.
  */
  lemma UndatedBreaksRange(all: seq<IndexEntry>, j: nat)
    requires Extracted(all)
    requires j < |all| && all[j].date.None?
    ensures RangeAsWritten(all).Some? && RangeAsWritten(all).value.0.None?
  {
    var s := Chronological(all);
    assert all[j] in multiset(s);
    var m :| 0 <= m < |s| && s[m] == all[j];
    var last := s[|s| - 1];
    assert last in multiset(all);
    var n :| 0 <= n < |all| && all[n] == last;
    if m < |s| - 1 {
      assert !LexLess(DateKey(s[m]), DateKey(last));
    }
  }

  /** The dated entries are exactly the entries with a date. */
  lemma DatedMember(all: seq<IndexEntry>, e: IndexEntry)
    ensures e in Dated(all) <==> e in all && e.date.Some?
  {
    FilterMember(Chronological(all), IsDated, true);
    assert e in all <==> e in multiset(all);
    assert e in Chronological(all) <==> e in multiset(Chronological(all));
  }

  lemma DatedNonEmpty(all: seq<IndexEntry>)
    ensures Dated(all) == [] <==> forall k | 0 <= k < |all| :: all[k].date.None?
  {
    var d := Dated(all);
    if d != [] {
      DatedMember(all, d[0]);
    }
    forall k | 0 <= k < |all| && all[k].date.Some? ensures d != [] {
      DatedMember(all, all[k]);
    }
  }

  /** The range from the oldest to the newest dated entry, or `None` when none is dated. */
  function DatedRange(all: seq<IndexEntry>): (r: Option<(string, string)>)
    ensures r.None? <==> forall k | 0 <= k < |all| :: all[k].date.None?
  {
    var d := Dated(all);
    DatedNonEmpty(all);
    if d == [] then None else Some((d[|d| - 1].date.value, d[0].date.value))
  }

  /** Every dated entry falls inside the range, and both ends are dates of entries. */
  lemma DatedRangeBounds(all: seq<IndexEntry>, e: IndexEntry)
    requires e in all && e.date.Some?
    ensures DatedRange(all).Some?
    ensures LexLeq(DatedRange(all).value.0, e.date.value) && LexLeq(e.date.value, DatedRange(all).value.1)
  {
    var d := Dated(all);
    DatedMember(all, e);
    FilterSorted(Chronological(all), IsDated, true, DateKey, true);
    var m :| 0 <= m < |d| && d[m] == e;
    if m > 0 {
      LexLessTotal(DateKey(d[0]), DateKey(e));
    }
    if m < |d| - 1 {
      LexLessTotal(DateKey(e), DateKey(d[|d| - 1]));
    }
  }

  lemma DatedRangeEnds(all: seq<IndexEntry>)
    requires DatedRange(all).Some?
    ensures exists k | 0 <= k < |all| :: all[k].date == Some(DatedRange(all).value.0)
    ensures exists k | 0 <= k < |all| :: all[k].date == Some(DatedRange(all).value.1)
  {
    var d := Dated(all);
    FilterMember(Chronological(all), IsDated, true);
    assert d[0] in multiset(all) && d[|d| - 1] in multiset(all);
  }

  // ---------------------------------------------------------------------
  // Season pages
  // ---------------------------------------------------------------------

  /** `e.get('season', '').lower()`. */
  function SeasonLower(e: IndexEntry): string {
    Lower(e.season)
  }

  /**
    `generate_season_html`'s list: the entries whose season matches,
    ignoring case, newest first (a stable sort, so ties keep file order).
  */
  function SeasonEntries(all: seq<IndexEntry>, season: string): (r: seq<IndexEntry>)
    ensures multiset(r) == multiset(Filter(all, SeasonLower, Lower(season)))
    ensures SortedBy(r, DateKey, true)
    ensures forall e :: e in r <==> e in all && Lower(e.season) == Lower(season)
  {
    var es := Filter(all, SeasonLower, Lower(season));
    FilterMember(all, SeasonLower, Lower(season));
    SortBySorted(es, DateKey, true);
    var r := SortBy(es, DateKey, true);
    assert forall e :: e in r <==> e in multiset(es);
    r
  }

  // ---------------------------------------------------------------------
  // generate_by_season_html
  // ---------------------------------------------------------------------

  /** The lowercased season of each entry, in order. */
  function LowerSeasons(all: seq<IndexEntry>): (r: seq<string>)
    ensures |r| == |all|
    decreases |all|
  {
    if all == [] then [] else LowerSeasons(all[..|all| - 1]) + [SeasonLower(all[|all| - 1])]
  }

  lemma {:induction false} CountLowerSeasons(all: seq<IndexEntry>, k: string)
    ensures Count(LowerSeasons(all), k) == |Filter(all, SeasonLower, k)|
    decreases |all|
  {
    if all != [] {
      CountLowerSeasons(all[..|all| - 1], k);
      var ls := LowerSeasons(all);
      assert ls[..|ls| - 1] == LowerSeasons(all[..|all| - 1]);
    }
  }

  /**
    The `season_counts` loop: each entry's lowercased season is counted,
    an empty season is not, and a season never seen reads as 0.
  */
  method CountSeasons(all: seq<IndexEntry>) returns (counts: map<string, nat>)
    ensures [] !in counts
    ensures forall k | k != [] :: Get(counts, k) == |Filter(all, SeasonLower, k)|
  {
    counts := map[];
    for i := 0 to |all|
      invariant [] !in counts
      invariant forall k | k != [] :: Get(counts, k) == |Filter(all[..i], SeasonLower, k)|
    {
      assert all[..i + 1][..i] == all[..i];
      var season := Lower(all[i].season);
      if season != [] {
        counts := Bump(counts, season);
      }
    }
    assert all[..|all|] == all;
  }

  /** The season cards: lowercased key, display name and page. */
  const SeasonTable: seq<(string, string, string)> := [
    ("advent", "Advent", "advent.html"),
    ("christmas", "Christmas", "christmas.html"),
    ("epiphany", "Epiphany", "epiphany.html"),
    ("lent", "Lent", "lent.html"),
    ("easter", "Easter", "easter.html"),
    ("ordinary time", "Ordinary Time", "ordinary-time.html"),
    ("special", "Special", "special.html")
  ]

  function TableKeys(table: seq<(string, string, string)>): seq<string> {
    seq(|table|, i requires 0 <= i < |table| => table[i].0)
  }

  /** Each card's key is its display name lowercased, and no key is empty. */
  lemma SeasonTableKeys()
    ensures forall i | 0 <= i < |SeasonTable| :: SeasonTable[i].0 == Lower(SeasonTable[i].1) && SeasonTable[i].0 != []
    ensures Distinct(TableKeys(SeasonTable))
  {
    assert Lower("Advent") == "advent";
    assert Lower("Christmas") == "christmas";
    assert Lower("Epiphany") == "epiphany";
    assert Lower("Lent") == "lent";
    assert Lower("Easter") == "easter";
    assert Lower("Ordinary Time") == "ordinary time";
    assert Lower("Special") == "special";
  }

  datatype SeasonCard = SeasonCard(name: string, file: string, count: nat)

  /**
    `generate_by_season_html`: the total and one card per season, whose
    count is the number of entries on that season's page.
  */
  method BuildBySeason(all: seq<IndexEntry>) returns (total: nat, cards: seq<SeasonCard>)
    ensures total == |all|
    ensures |cards| == |SeasonTable|
    ensures forall i | 0 <= i < |cards| ::
      cards[i].name == SeasonTable[i].1 && cards[i].file == SeasonTable[i].2
      && cards[i].count == |SeasonEntries(all, SeasonTable[i].1)|
  {
    var counts := CountSeasons(all);
    total := |all|;
    SeasonTableKeys();
    cards := [];
    for i := 0 to |SeasonTable|
      invariant |cards| == i
      invariant forall k | 0 <= k < i ::
        cards[k].name == SeasonTable[k].1 && cards[k].file == SeasonTable[k].2
        && cards[k].count == |SeasonEntries(all, SeasonTable[k].1)|
    {
      var (key, name, file) := SeasonTable[i];
      var es := SeasonEntries(all, name);
      assert |multiset(es)| == |es|;
      cards := cards + [SeasonCard(name, file, Get(counts, key))];
    }
  }

  /** Sum of the card counts for the keys of `table`. */
  function TableTotal(all: seq<IndexEntry>, table: seq<(string, string, string)>): nat
    decreases |table|
  {
    if table == [] then 0 else |Filter(all, SeasonLower, table[0].0)| + TableTotal(all, table[1..])
  }

  lemma {:induction false} TableTotalIsSum(all: seq<IndexEntry>, table: seq<(string, string, string)>)
    ensures TableTotal(all, table) == SumCounts(LowerSeasons(all), TableKeys(table))
    decreases |table|
  {
    if table != [] {
      TableTotalIsSum(all, table[1..]);
      CountLowerSeasons(all, table[0].0);
      assert TableKeys(table)[1..] == TableKeys(table[1..]);
    }
  }

  /**
    The seven cards never count more meditations than the total: an entry
    whose season is none of them, or empty, is on no card.
  */
  lemma SeasonCardsBounded(all: seq<IndexEntry>)
    ensures TableTotal(all, SeasonTable) <= |all|
  {
    SeasonTableKeys();
    TableTotalIsSum(all, SeasonTable);
    SumCountsIsCountIn(LowerSeasons(all), TableKeys(SeasonTable));
  }
}
