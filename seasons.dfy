/**
  The liturgical-season classifiers and the season counters.

  Every script that sorts meditations into seasons does it with an
  if/elif cascade of substring tests on lowercased text, where the first
  test that holds decides the season. Each cascade is modelled as the
  same chain of tests, in the same order, over `Mentions`, the model of
  Python's `in` on strings.
*/
module Seasons {
  import opened Text
  import opened Scan
  import opened Grouping

  /** The season labels the scripts use. */
  datatype Season =
    | Advent | Christmas | Epiphany | Lent | HolyWeek | Easter
    | Pentecost | OrdinaryTime | Special | Other

  // ---------------------------------------------------------------------
  // Python `p in t`
  // ---------------------------------------------------------------------

  /** A left-to-right search for `p` in `t` from index `i`. */
  predicate MentionsFrom(t: string, p: string, i: nat)
    decreases |t| - i
  {
    i + |p| <= |t| && (t[i..i + |p|] == p || MentionsFrom(t, p, i + 1))
  }

  /** Python `p in t`. */
  predicate Mentions(t: string, p: string) {
    MentionsFrom(t, p, 0)
  }

  /** The search finds `p` exactly when it occurs somewhere at or after `i`. */
  lemma {:induction false} MentionsFromIff(t: string, p: string, i: nat)
    ensures MentionsFrom(t, p, i) <==> exists k | i <= k <= |t| :: OccursAt(t, p, k)
    decreases |t| - i
  {
    if i + |p| <= |t| {
      MentionsFromIff(t, p, i + 1);
      if t[i..i + |p|] == p {
        assert OccursAt(t, p, i);
      }
      if MentionsFrom(t, p, i) && t[i..i + |p|] != p {
        var k :| i + 1 <= k <= |t| && OccursAt(t, p, k);
        assert i <= k;
      }
      if !MentionsFrom(t, p, i) {
        assert t[i..i + |p|] != p;
        forall k | i <= k <= |t| ensures !OccursAt(t, p, k) {
          if k == i {
            assert !OccursAt(t, p, i);
          } else {
            assert i + 1 <= k <= |t|;
          }
        }
      }
    }
  }

  /** The search agrees with the reference definition of the substring test. */
  lemma MentionsIff(t: string, p: string)
    ensures Mentions(t, p) <==> Contains(t, p)
  {
    MentionsFromIff(t, p, 0);
  }

  /** `in` passes through a phrase that itself contains the sub-phrase. */
  lemma MentionsThrough(s: string, mid: string, sub: string)
    requires Mentions(s, mid) && Mentions(mid, sub)
    ensures Mentions(s, sub)
  {
    MentionsIff(s, mid);
    MentionsIff(mid, sub);
    var i :| 0 <= i <= |s| && OccursAt(s, mid, i);
    var j :| 0 <= j <= |mid| && OccursAt(mid, sub, j);
    assert s[i..i + |mid|] == mid;
    forall n | 0 <= n < |sub| ensures s[i + j + n] == sub[n] {
      assert s[i + j + n] == s[i..i + |mid|][j + n] == mid[j + n] == mid[j..j + |sub|][n];
    }
    assert OccursAt(s, sub, i + j);
    MentionsIff(s, sub);
  }

  /** A text that mentions a phrase mentions every part of that phrase. */
  lemma MentionedInside(t: string, phrase: string, part: string, k: nat)
    requires OccursAt(phrase, part, k)
    ensures Mentions(t, phrase) ==> Mentions(t, part)
  {
    if Mentions(t, phrase) {
      MentionsIff(phrase, part);
      MentionsThrough(t, phrase, part);
    }
  }

  // ---------------------------------------------------------------------
  // get_season_from_occasion and get_lectionary_year (generate_indexes.py)
  // ---------------------------------------------------------------------

  /** `get_season_from_occasion`: the first test that holds on the lowercased occasion decides. */
  function SeasonFromOccasion(occasion: string): Season {
    var t := Lower(occasion);
    if Mentions(t, "advent") then Advent
    else if Mentions(t, "christmas") then Christmas
    else if Mentions(t, "epiphany") then Epiphany
    else if Mentions(t, "lent") || Mentions(t, "ash wednesday") then Lent
    else if Mentions(t, "palm") then HolyWeek
    else if Mentions(t, "easter") then Easter
    else if Mentions(t, "pentecost") && Mentions(t, "day of") then Pentecost
    else if Mentions(t, "trinity") then OrdinaryTime
    else if Mentions(t, "pentecost") || Mentions(t, "ordinary") || Mentions(t, "proper") then OrdinaryTime
    else if Mentions(t, "all saints") then Special
    else if Mentions(t, "christ the king") then Special
    else Other
  }

  /** The key words `get_season_from_occasion` looks for. */
  const OccasionWords: seq<string> :=
    [ "advent", "christmas", "epiphany", "lent", "ash wednesday", "palm", "easter",
      "pentecost", "trinity", "ordinary", "proper", "all saints", "christ the king" ]

  /** The classification does not depend on letter case. */
  lemma SeasonFromOccasionIgnoresCase(occasion: string)
    ensures SeasonFromOccasion(Lower(occasion)) == SeasonFromOccasion(occasion)
  {
    LowerIdempotent(occasion);
  }

  /** An occasion falls back to Other exactly when it mentions none of the key words. */
  lemma OtherIffNoKeyWord(occasion: string)
    ensures SeasonFromOccasion(occasion) == Other <==>
      forall k | 0 <= k < |OccasionWords| :: !Mentions(Lower(occasion), OccasionWords[k])
  {
    var t := Lower(occasion);
    var w := OccasionWords;
    if SeasonFromOccasion(occasion) == Other {
      forall k | 0 <= k < |w| ensures !Mentions(t, w[k]) {
        assert w[k] in w;
      }
    }
    if forall k | 0 <= k < |w| :: !Mentions(t, w[k]) {
      assert !Mentions(t, w[0]) && !Mentions(t, w[1]) && !Mentions(t, w[2]) && !Mentions(t, w[3]);
      assert !Mentions(t, w[4]) && !Mentions(t, w[5]) && !Mentions(t, w[6]) && !Mentions(t, w[7]);
      assert !Mentions(t, w[8]) && !Mentions(t, w[9]) && !Mentions(t, w[10]) && !Mentions(t, w[11]);
      assert !Mentions(t, w[12]);
    }
  }

  /** Anything that mentions Advent is Advent, whatever else it says. */
  lemma AdventComesFirst(occasion: string)
    requires Mentions(Lower(occasion), "advent")
    ensures SeasonFromOccasion(occasion) == Advent
  {
  }

  /**
    A Pentecost occasion without "day of" falls through to Ordinary Time,
    once none of the earlier seasons is mentioned.
  */
  lemma PentecostWithoutDayOf(occasion: string)
    requires Mentions(Lower(occasion), "pentecost") && !Mentions(Lower(occasion), "day of")
    requires !Mentions(Lower(occasion), "advent") && !Mentions(Lower(occasion), "christmas")
    requires !Mentions(Lower(occasion), "epiphany") && !Mentions(Lower(occasion), "lent")
    requires !Mentions(Lower(occasion), "ash wednesday") && !Mentions(Lower(occasion), "palm")
    requires !Mentions(Lower(occasion), "easter")
    ensures SeasonFromOccasion(occasion) == OrdinaryTime
  {
  }


  /** `Year\s+([ABC])` matches at `i`; its captured letter. */
  function YearLetterAt(t: string, i: nat): (r: Option<char>)
    requires i <= |t|
    ensures r.Some? ==> r.value == 'A' || r.value == 'B' || r.value == 'C'
  {
    if OccursAt(t, "Year", i) then
      var j := SkipSpaces(t, i + 4);
      if i + 4 < j < |t| && (t[j] == 'A' || t[j] == 'B' || t[j] == 'C') then Some(t[j]) else None
    else None
  }

  /** First position from `i` where the pattern matches, or `|t| + 1`. */
  function YearSearch(t: string, i: nat): (k: nat)
    requires i <= |t| + 1
    ensures i <= k <= |t| + 1
    ensures forall j | i <= j < k :: YearLetterAt(t, j) == None
    ensures k <= |t| ==> YearLetterAt(t, k).Some?
    decreases |t| + 1 - i
  {
    if i > |t| then i
    else if YearLetterAt(t, i).Some? then i
    else YearSearch(t, i + 1)
  }

  /** `get_lectionary_year`: the letter of the leftmost match of `Year\s+([ABC])`, case-sensitive. */
  function LectionaryYear(occasion: string): (r: Option<char>)
    ensures r.Some? ==> r.value == 'A' || r.value == 'B' || r.value == 'C'
    ensures r == None <==> forall i | 0 <= i <= |occasion| :: YearLetterAt(occasion, i) == None
    ensures r.Some? ==> exists i | 0 <= i <= |occasion| ::
      YearLetterAt(occasion, i) == r && forall j | 0 <= j < i :: YearLetterAt(occasion, j) == None
  {
    var k := YearSearch(occasion, 0);
    if k <= |occasion| then YearLetterAt(occasion, k) else None
  }

  lemma ProperYearB()
    ensures LectionaryYear("Proper 5, Year B") == Some('B')
  {
    var t := "Proper 5, Year B";
    assert YearLetterAt(t, 10) == Some('B') by {
      assert OccursAt(t, "Year", 10);
      assert SkipSpaces(t, 14) == 15;
    }
    var lead := "Proper 5, ";
    assert t == lead + "Year B";
    assert 'Y' !in lead;
    forall j | 0 <= j < 10 ensures YearLetterAt(t, j) == None {
      assert t[j] == lead[j];
      NoYearAt(t, j);
    }
  }

  /** The pattern cannot match where the text has no capital Y. */
  lemma NoYearAt(t: string, j: nat)
    requires j < |t| && t[j] != 'Y'
    ensures YearLetterAt(t, j) == None
  {
    if j + 4 <= |t| {
      assert t[j..j + 4][0] == t[j];
    }
  }

  /** The search is case-sensitive and needs whitespace before the letter. */
  lemma LowercaseYearIsNoYear()
    ensures LectionaryYear("year b") == None
    ensures LectionaryYear("YearB") == None
  {
    var t := "year b";
    assert 'Y' !in t;
    forall i | 0 <= i <= |t| ensures YearLetterAt(t, i) == None {
      if i < |t| {
        assert t[i] in t;
        NoYearAt(t, i);
      }
    }
    var u := "YearB";
    assert 'Y' !in u[1..];
    forall i | 0 <= i <= |u| ensures YearLetterAt(u, i) == None {
      if i == 0 {
        assert SkipSpaces(u, 4) == 4;
      } else if i < |u| {
        assert u[i] == u[1..][i - 1];
        NoYearAt(u, i);
      }
    }
  }


  // ---------------------------------------------------------------------
  // count_meditations_by_season (update_tog_website_v4.py, identical in v3)
  // ---------------------------------------------------------------------

  /** The season the v3 and v4 site updaters give a meditation page. */
  function PageSeason(content: string): Season {
    var t := Lower(content);
    if Mentions(t, "advent") &&
       (Mentions(t, "first sunday of advent") || Mentions(t, "second sunday of advent") ||
        Mentions(t, "third sunday of advent") || Mentions(t, "fourth sunday of advent"))
    then Advent
    else if Mentions(t, "christmas") then Christmas
    else if Mentions(t, "epiphany") then Epiphany
    else if Mentions(t, "in lent") || Mentions(t, "palm sunday") || Mentions(t, "ash wednesday") then Lent
    else if Mentions(t, "easter") then Easter
    else if Mentions(t, "day of pentecost") then Pentecost
    else if Mentions(t, "trinity sunday") || Mentions(t, "after pentecost") then OrdinaryTime
    else if Mentions(t, "all saints") || Mentions(t, "christ the king") || Mentions(t, "transfiguration") ||
            Mentions(t, "holy name") || Mentions(t, "presentation")
    then Special
    else Other
  }

  /** The labels the page counters can produce. */
  const CounterLabels: seq<Season> :=
    [Advent, Christmas, Epiphany, Lent, Easter, Pentecost, OrdinaryTime, Special, Other]

  /** Every page gets one of the nine counter labels; Holy Week is never produced. */
  lemma PageSeasonLabel(content: string)
    ensures PageSeason(content) in CounterLabels
  {
  }

  /** "advent" counts only together with one of the four Sunday-of-Advent phrases, which imply it. */
  lemma PageAdventIff(content: string)
    ensures PageSeason(content) == Advent <==>
      Mentions(Lower(content), "first sunday of advent") || Mentions(Lower(content), "second sunday of advent") ||
      Mentions(Lower(content), "third sunday of advent") || Mentions(Lower(content), "fourth sunday of advent")
  {
    SundayOfAdventMentionsAdvent(Lower(content));
  }

  /** Each of the four Sunday-of-Advent phrases contains "advent". */
  lemma SundayOfAdventMentionsAdvent(t: string)
    ensures (Mentions(t, "first sunday of advent") || Mentions(t, "second sunday of advent") ||
             Mentions(t, "third sunday of advent") || Mentions(t, "fourth sunday of advent")) ==> Mentions(t, "advent")
  {
    MentionedInside(t, "first sunday of advent", "advent", 16);
    MentionedInside(t, "second sunday of advent", "advent", 17);
    MentionedInside(t, "third sunday of advent", "advent", 16);
    MentionedInside(t, "fourth sunday of advent", "advent", 17);
  }

  lemma PageSeasonIgnoresCase(content: string)
    ensures PageSeason(Lower(content)) == PageSeason(content)
  {
    LowerIdempotent(content);
  }

  // ---------------------------------------------------------------------
  // count_meditations_by_season (the first update_tog_website.py)
  // ---------------------------------------------------------------------

  /** The season the first site updater gives a meditation page. */
  function FirstUpdaterSeason(content: string): Season {
    var t := Lower(content);
    if Mentions(t, "advent") && Mentions(t, "sunday") then Advent
    else if Mentions(t, "christmas") then Christmas
    else if Mentions(t, "epiphany") then Epiphany
    else if Mentions(t, "lent") || Mentions(t, "palm sunday") || Mentions(t, "ash wednesday") then Lent
    else if Mentions(t, "easter") then Easter
    else if Mentions(t, "pentecost") then (if Mentions(t, "day of pentecost") then Pentecost else OrdinaryTime)
    else if Mentions(t, "trinity sunday") then OrdinaryTime
    else if Mentions(t, "proper") then OrdinaryTime
    else if Mentions(t, "all saints") || Mentions(t, "christ the king") || Mentions(t, "transfiguration") ||
            Mentions(t, "holy name") || Mentions(t, "presentation")
    then Special
    else Other
  }

  lemma FirstUpdaterSeasonLabel(content: string)
    ensures FirstUpdaterSeason(content) in CounterLabels
  {
  }

  /** "day of pentecost" mentions "pentecost", so the inner test of the Pentecost branch is the only way to Pentecost. */
  lemma FirstUpdaterPentecostIff(content: string)
    ensures FirstUpdaterSeason(content) == Pentecost ==> Mentions(Lower(content), "day of pentecost")
    ensures Mentions(Lower(content), "day of pentecost") && !Mentions(Lower(content), "advent") &&
      !Mentions(Lower(content), "christmas") && !Mentions(Lower(content), "epiphany") &&
      !Mentions(Lower(content), "lent") && !Mentions(Lower(content), "palm sunday") &&
      !Mentions(Lower(content), "ash wednesday") && !Mentions(Lower(content), "easter")
      ==> FirstUpdaterSeason(content) == Pentecost
  {    MentionedInside(Lower(content), "day of pentecost", "pentecost", 7);
  }

  // ---------------------------------------------------------------------
  // Counting pages per season
  // ---------------------------------------------------------------------

  /** The season of each page, in order. */
  function Classified(pages: seq<string>, classify: string -> Season): (r: seq<Season>)
    ensures |r| == |pages|
    decreases |pages|
  {
    if pages == [] then [] else Classified(pages[..|pages| - 1], classify) + [classify(pages[|pages| - 1])]
  }

  /** The counting loop of `count_meditations_by_season`: `season_counts[season] += 1` per page. */
  method CountBySeason(pages: seq<string>, classify: string -> Season) returns (counts: map<Season, nat>)
    ensures forall s :: Get(counts, s) == Count(Classified(pages, classify), s)
    ensures forall s :: s in counts <==> s in Classified(pages, classify)
  {
    counts := map[];
    for i := 0 to |pages|
      invariant forall s :: Get(counts, s) == Count(Classified(pages[..i], classify), s)
      invariant forall s :: s in counts <==> s in Classified(pages[..i], classify)
    {
      var season := classify(pages[i]);
      ghost var before := Classified(pages[..i], classify);
      assert pages[..i + 1][..i] == pages[..i];
      assert Classified(pages[..i + 1], classify) == before + [season];
      assert (before + [season])[..|before|] == before;
      counts := Bump(counts, season);
    }
    assert pages[..|pages|] == pages;
  }

  lemma CounterLabelsDistinct()
    ensures Distinct(CounterLabels)
  {
  }

  /** When every page gets one of the listed labels, the per-label counts add up to the number of pages. */
  lemma CountsCoverPages(pages: seq<string>, classify: string -> Season)
    requires forall c :: classify(c) in CounterLabels
    ensures SumCounts(Classified(pages, classify), CounterLabels) == |pages|
  {
    var seasons := Classified(pages, classify);
    CounterLabelsDistinct();
    SumCountsIsCountIn(seasons, CounterLabels);
    ClassifiedIn(pages, classify);
    CountInAll(seasons, CounterLabels);
  }

  lemma {:induction false} ClassifiedIn(pages: seq<string>, classify: string -> Season)
    requires forall c :: classify(c) in CounterLabels
    ensures forall j | 0 <= j < |pages| :: Classified(pages, classify)[j] in CounterLabels
    decreases |pages|
  {
    if pages != [] {
      ClassifiedIn(pages[..|pages| - 1], classify);
    }
  }

  /** The v3/v4 counts sum to the number of meditation pages. */
  lemma PageCountsCoverPages(pages: seq<string>)
    ensures SumCounts(Classified(pages, PageSeason), CounterLabels) == |pages|
  {
    forall c ensures PageSeason(c) in CounterLabels {
      PageSeasonLabel(c);
    }
    CountsCoverPages(pages, PageSeason);
  }

  /** The first updater's counts sum to the number of meditation pages. */
  lemma FirstUpdaterCountsCoverPages(pages: seq<string>)
    ensures SumCounts(Classified(pages, FirstUpdaterSeason), CounterLabels) == |pages|
  {
    forall c ensures FirstUpdaterSeason(c) in CounterLabels {
      FirstUpdaterSeasonLabel(c);
    }
    CountsCoverPages(pages, FirstUpdaterSeason);
  }

  // ---------------------------------------------------------------------
  // The season in get_meditation_info (add_missing_to_chrono.py)
  // ---------------------------------------------------------------------

  /** The season of a meditation's occasion line; `None` without an occasion or when no test holds. */
  function ChronoSeason(occasion: Option<string>): (r: Option<Season>)
    ensures r != Some(Other) && r != Some(HolyWeek)
  {
    if occasion == None || occasion.value == [] then None
    else
      var t := Lower(occasion.value);
      if Mentions(t, "advent") then Some(Advent)
      else if Mentions(t, "christmas") then Some(Christmas)
      else if Mentions(t, "epiphany") then Some(Epiphany)
      else if Mentions(t, "lent") || Mentions(t, "palm sunday") || Mentions(t, "ash wednesday") then Some(Lent)
      else if Mentions(t, "easter") then Some(Easter)
      else if Mentions(t, "pentecost") && !Mentions(t, "after") then Some(Pentecost)
      else if Mentions(t, "trinity") || Mentions(t, "after pentecost") || Mentions(t, "proper") then Some(OrdinaryTime)
      else if Mentions(t, "all saints") || Mentions(t, "christ the king") || Mentions(t, "holy name") ||
              Mentions(t, "transfiguration")
      then Some(Special)
      else None
  }

  /** Past the earlier seasons, a Pentecost occasion is Pentecost exactly when it does not say "after". */
  lemma ChronoPentecost(o: string)
    requires o != [] && Mentions(Lower(o), "pentecost")
    requires !Mentions(Lower(o), "advent") && !Mentions(Lower(o), "christmas")
    requires !Mentions(Lower(o), "epiphany") && !Mentions(Lower(o), "lent")
    requires !Mentions(Lower(o), "palm sunday") && !Mentions(Lower(o), "ash wednesday")
    requires !Mentions(Lower(o), "easter")
    ensures ChronoSeason(Some(o)) == Some(Pentecost) <==> !Mentions(Lower(o), "after")
  {
  }

  /** "after pentecost" mentions "after", so such an occasion is never Pentecost. */
  lemma AfterPentecostIsNotPentecost(o: string)
    requires Mentions(Lower(o), "after pentecost")
    ensures ChronoSeason(Some(o)) != Some(Pentecost)
  {    MentionedInside(Lower(o), "after pentecost", "after", 0);
  }

  // ---------------------------------------------------------------------
  // Count texts
  // ---------------------------------------------------------------------

  /**
    The count line of a season card or page: `"{n} meditations"`, or, when
    the script makes the noun agree, `"1 meditation"` for a single one.
  */
  function CountText(n: nat, agree: bool): (r: string)
    ensures EndsWith(r, "meditations") <==> !(agree && n == 1)
  {
    DecimalString(n) + (if agree && n == 1 then " meditation" else " meditations")
  }

  /** The number a count line starts with. */
  function ReadCount(line: string): Option<nat> {
    var j := SkipDigits(line, 0);
    if j == 0 then None else Some(DecimalValue(line[..j]))
  }

  /** A digit run followed by a non-digit ends where the digits do. */
  lemma {:induction false} SkipDigitsStops(d: string, rest: string, i: nat)
    requires AllDigits(d) && i <= |d|
    requires rest != [] && !IsDigit(rest[0])
    ensures SkipDigits(d + rest, i) == |d|
    decreases |d| - i
  {
    if i < |d| {
      assert (d + rest)[i] == d[i];
      SkipDigitsStops(d, rest, i + 1);
    } else {
      assert (d + rest)[i] == rest[0];
    }
  }

  /** The count a line shows is the count it was made from. */
  lemma CountTextRoundTrip(n: nat, agree: bool)
    ensures ReadCount(CountText(n, agree)) == Some(n)
  {
    var d := DecimalString(n);
    var rest := if agree && n == 1 then " meditation" else " meditations";
    SkipDigitsStops(d, rest, 0);
    assert (d + rest)[..|d|] == d;
    DecimalRoundTrip(n);
  }

  // ---------------------------------------------------------------------
  // Season cards (update_by_season_html)
  // ---------------------------------------------------------------------

  /** A season card: the text of its `h3` heading and of its `p` count line, when present. */
  datatype Card = Card(heading: Option<string>, line: Option<string>)

  /** The update touches a card that has both parts and whose heading calls for a new line. */
  predicate Touches(card: Card, newLine: string -> Option<string>) {
    card.heading.Some? && card.line.Some? && newLine(card.heading.value).Some?
  }

  /** A card after the update. */
  function Relabel(card: Card, newLine: string -> Option<string>): Card {
    if Touches(card, newLine) then card.(line := newLine(card.heading.value)) else card
  }

  /** The number of cards the update touches. */
  function Touched(cards: seq<Card>, newLine: string -> Option<string>): (n: nat)
    ensures n <= |cards|
    decreases |cards|
  {
    if cards == [] then 0
    else Touched(cards[..|cards| - 1], newLine) + (if Touches(cards[|cards| - 1], newLine) then 1 else 0)
  }

  /**
    The loop over the season cards: each card with a heading and a count
    line whose heading maps to a season gets that season's count line;
    other cards are left alone. With `analyzeOnly` nothing is written.
  */
  method UpdateCards(cards: array<Card>, newLine: string -> Option<string>, analyzeOnly: bool)
    returns (updates: nat)
    modifies cards
    ensures updates == Touched(old(cards[..]), newLine)
    ensures analyzeOnly ==> cards[..] == old(cards[..])
    ensures !analyzeOnly ==> forall i | 0 <= i < cards.Length :: cards[i] == Relabel(old(cards[i]), newLine)
  {
    updates := 0;
    for i := 0 to cards.Length
      invariant updates == Touched(old(cards[..])[..i], newLine)
      invariant forall j | i <= j < cards.Length :: cards[j] == old(cards[j])
      invariant analyzeOnly ==> forall j | 0 <= j < i :: cards[j] == old(cards[j])
      invariant !analyzeOnly ==> forall j | 0 <= j < i :: cards[j] == Relabel(old(cards[j]), newLine)
    {
      ghost var seen := old(cards[..])[..i + 1];
      assert seen[..i] == old(cards[..])[..i];
      var card := cards[i];
      if card.heading.Some? && card.line.Some? {
        var next := newLine(card.heading.value);
        if next.Some? {
          if !analyzeOnly {
            cards[i] := card.(line := next);
          }
          updates := updates + 1;
        }
      }
    }
    assert old(cards[..])[..cards.Length] == old(cards[..]);
  }

  /** The season a v3/v4 card heading names: the first key of the card map contained in the lowercased heading. */
  function CardSeason(heading: string): Option<Season> {
    var h := Lower(Strip(heading));
    if Mentions(h, "advent") then Some(Advent)
    else if Mentions(h, "christmas") then Some(Christmas)
    else if Mentions(h, "epiphany") then Some(Epiphany)
    else if Mentions(h, "lent") then Some(Lent)
    else if Mentions(h, "easter") then Some(Easter)
    else if Mentions(h, "pentecost") then Some(Pentecost)
    else if Mentions(h, "ordinary time") then Some(OrdinaryTime)
    else if Mentions(h, "special") then Some(Special)
    else None
  }

  /** The v3/v4 new count line: the count of the card's season, 0 when absent, never pluralised by agreement. */
  function PageCardLine(counts: map<Season, nat>, heading: string): (r: Option<string>)
    ensures r.Some? <==> CardSeason(heading).Some?
    ensures r.Some? ==> ReadCount(r.value) == Some(Get(counts, CardSeason(heading).value))
  {
    match CardSeason(heading)
    case None => None
    case Some(s) => CountTextRoundTrip(Get(counts, s), false); Some(CountText(Get(counts, s), false))
  }

  // ---------------------------------------------------------------------
  // update_by_season_counts.py
  // ---------------------------------------------------------------------

  /** An entry of the liturgical database, keyed by date; every field may be missing. */
  datatype LitInfo = LitInfo(occasion: Option<string>, lectionaryYear: Option<string>, season: Option<string>)

  /** The seven season keys the counter starts at 0. */
  const SeasonKeys: seq<string> :=
    ["Advent", "Christmas", "Epiphany", "Lent", "Easter", "Ordinary Time", "Special"]

  /** The season the database records for a date, `'Ordinary Time'` when the date or its season is missing. */
  function DatabaseSeason(db: map<string, LitInfo>, date: string): string {
    if date in db && db[date].season.Some? then db[date].season.value else "Ordinary Time"
  }

  /** The database season of every `.html` file, in order; the date is the file name without `.html`. */
  function FileSeasons(db: map<string, LitInfo>, files: seq<string>): (r: seq<string>)
    ensures |r| <= |files|
    decreases |files|
  {
    if files == [] then []
    else
      var f := files[|files| - 1];
      FileSeasons(db, files[..|files| - 1]) +
        (if EndsWith(f, ".html") then [DatabaseSeason(db, ReplaceAll(f, ".html", ""))] else [])
  }

  /** `count_meditations_by_season` of update_by_season_counts.py. */
  method CountFromDatabase(files: seq<string>, db: map<string, LitInfo>) returns (counts: map<string, nat>)
    ensures forall k :: k in counts <==> k in SeasonKeys
    ensures forall k | k in counts :: counts[k] == Count(FileSeasons(db, files), k)
  {
    counts := map k | k in SeasonKeys :: 0;
    for i := 0 to |files|
      invariant forall k :: k in counts <==> k in SeasonKeys
      invariant forall k | k in counts :: counts[k] == Count(FileSeasons(db, files[..i]), k)
    {
      var f := files[i];
      FileSeasonsStep(db, files, i);
      if EndsWith(f, ".html") {
        var season := DatabaseSeason(db, ReplaceAll(f, ".html", ""));
        CountsAfterSnoc(counts, FileSeasons(db, files[..i]), season);
        if season in counts {
          counts := counts[season := counts[season] + 1];
        }
      }
    }
    assert files[..|files|] == files;
  }

  lemma FileSeasonsStep(db: map<string, LitInfo>, files: seq<string>, i: nat)
    requires i < |files|
    ensures EndsWith(files[i], ".html") ==>
      FileSeasons(db, files[..i + 1]) == FileSeasons(db, files[..i]) + [DatabaseSeason(db, ReplaceAll(files[i], ".html", ""))]
    ensures !EndsWith(files[i], ".html") ==> FileSeasons(db, files[..i + 1]) == FileSeasons(db, files[..i])
  {
    assert files[..i + 1][..i] == files[..i];
    assert FileSeasons(db, files[..i]) + [] == FileSeasons(db, files[..i]);
  }

  /** Counting one more item on a counter with fixed keys: only a known key moves. */
  lemma CountsAfterSnoc(counts: map<string, nat>, xs: seq<string>, x: string)
    requires forall k | k in counts :: counts[k] == Count(xs, k)
    ensures var c := if x in counts then counts[x := counts[x] + 1] else counts;
      c.Keys == counts.Keys && forall k | k in c :: c[k] == Count(xs + [x], k)
  {
    assert (xs + [x])[..|xs|] == xs;
  }

  lemma SeasonKeysDistinct()
    ensures Distinct(SeasonKeys)
  {
  }

  /** Seasons outside the seven keys are dropped, so the counts add up to at most the number of files. */
  lemma DatabaseCountsBounded(files: seq<string>, db: map<string, LitInfo>)
    ensures SumCounts(FileSeasons(db, files), SeasonKeys) <= |files|
  {
    SeasonKeysDistinct();
    SumCountsIsCountIn(FileSeasons(db, files), SeasonKeys);
  }

  /** The display headings of update_by_season_html and the count keys they stand for. */
  function SeasonKeyOf(name: string): Option<string> {
    if name in ["Advent", "Christmas", "Epiphany", "Lent", "Easter", "Ordinary Time"] then Some(name)
    else if name == "Special Occasions" then Some("Special")
    else None
  }

  /** The count key of a card heading, looked up after stripping its text. */
  function DisplaySeason(heading: string): Option<string> {
    SeasonKeyOf(Strip(heading))
  }

  /**
    The new count line for a card: only a mapped heading whose key is
    counted gets one, and it agrees in number with the count.
  */
  function DatabaseCardLine(counts: map<string, nat>, heading: string): (r: Option<string>)
    ensures r.Some? <==> DisplaySeason(heading).Some? && DisplaySeason(heading).value in counts
    ensures r.Some? ==> ReadCount(r.value) == Some(counts[DisplaySeason(heading).value])
  {
    match DisplaySeason(heading)
    case None => None
    case Some(key) =>
      if key in counts then CountTextRoundTrip(counts[key], true); Some(CountText(counts[key], true))
      else None
  }

  lemma SpecialOccasionsKey(h: string)
    requires h == "Special Occasions"
    ensures DisplaySeason(h) == Some("Special")
  {
    StripOfStripped(h);
    SpecialOccasionsName(h);
    StrippedHeading(h);
  }

  lemma SpecialOccasionsName(h: string)
    requires h == "Special Occasions"
    ensures SeasonKeyOf(h) == Some("Special")
  {
  }

  /** Whitespace around a card heading does not change the season it is counted under. */
  lemma PaddedHeading(l: string, h: string, r: string)
    requires AllSpace(l) && AllSpace(r) && IsStripped(h)
    ensures DisplaySeason(l + h + r) == DisplaySeason(h)
  {
    StripPadded(l, h, r);
    StripOfStripped(h);
  }

  /** A heading without surrounding whitespace is looked up as it is. */
  lemma StrippedHeading(h: string)
    requires Strip(h) == h
    ensures DisplaySeason(h) == SeasonKeyOf(h)
  {
  }

  /** With the counter's own keys, every mapped heading is counted; "Special Occasions" shows the Special count. */
  lemma SpecialOccasionsCount(counts: map<string, nat>)
    requires forall k :: k in counts <==> k in SeasonKeys
    ensures DatabaseCardLine(counts, "Special Occasions") == Some(CountText(counts["Special"], true))
  {
    SpecialOccasionsKey("Special Occasions");
    assert "Special" in SeasonKeys;
  }
}
