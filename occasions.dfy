/**
  How the scripts write and read back the occasion line of a meditation:
  the "Year R C" clean-up applied to hand-typed input, the display line
  "Occasion, Year X • Season" written into each page, the split of that
  line back into occasion and season when the indexes are regenerated,
  and the "(Year X)" decoration of the season pages.
*/
module Occasions {
  import opened Text
  import opened Scan

  /** One of the three lectionary year letters. */
  predicate IsYearLetter(c: char) {
    c == 'A' || c == 'B' || c == 'C'
  }

  // ---------------------------------------------------------------------
  // fix_year_designation: re.sub(r'Year\s*R\s*([ABC])', r'Year \1', text)
  // ---------------------------------------------------------------------

  /**
    The pattern at index `i`. Both `\s*` runs are followed by a character
    that is not whitespace, so taking each run in full is the only way the
    pattern can match.
  */
  function YearRAt(t: string, i: nat): (h: Option<Hit>)
    ensures h.Some? ==> OccursAt(t, "Year", i) && 0 < h.value.len <= |t| - i
    ensures h.Some? ==> |h.value.repl| == 6 && h.value.repl[..5] == "Year "
    ensures h.Some? ==> IsYearLetter(h.value.repl[5]) && h.value.repl[5] == t[i + h.value.len - 1]
  {
    if !OccursAt(t, "Year", i) then None
    else
      var j := SkipSpaces(t, i + 4);
      if j == |t| || t[j] != 'R' then None
      else
        var k := SkipSpaces(t, j + 1);
        if k == |t| || !IsYearLetter(t[k]) then None
        else Some(Hit(k + 1 - i, "Year " + [t[k]]))
  }

  /** Python `fix_year_designation`. */
  function FixYearDesignation(text: string): string {
    Sub(text, YearRAt)
  }

  /** "Year R C", "YearRC" and every other spacing become "Year C". */
  lemma YearRRewritten(s1: string, s2: string, letter: char)
    requires AllSpace(s1) && AllSpace(s2) && IsYearLetter(letter)
    ensures FixYearDesignation("Year" + s1 + "R" + s2 + [letter]) == "Year " + [letter]
  {
    var t := "Year" + s1 + "R" + s2 + [letter];
    var j := 4 + |s1|;
    var k := j + 1 + |s2|;
    assert t[..4] == "Year";
    assert t[4..j] == s1;
    assert t[j] == 'R';
    assert t[j + 1..k] == s2;
    assert t[k] == letter && k + 1 == |t|;
    SkipSpacesRun(t, 4, j);
    SkipSpacesRun(t, j + 1, k);
    assert OccursAt(t, "Year", 0);
    assert YearRAt(t, 0) == Some(Hit(|t|, "Year " + [letter]));
    assert Fires(YearRAt, t, 0);
    assert SubFrom(t, |t|, YearRAt) == [];
    assert SubFrom(t, 0, YearRAt) == "Year " + [letter] + SubFrom(t, |t|, YearRAt);
  }

  /** Without a capital R there is nothing to rewrite. */
  lemma NoCapitalRUnchanged(t: string)
    requires 'R' !in t
    ensures FixYearDesignation(t) == t
  {
    forall i | 0 <= i < |t|
      ensures !Fires(YearRAt, t, i)
    {
      if OccursAt(t, "Year", i) {
        var j := SkipSpaces(t, i + 4);
        if j < |t| {
          assert t[j] in t;
        }
      }
    }
    SubNoMatch(t, YearRAt);
  }

  // ---------------------------------------------------------------------
  // The occasion display line of a meditation page
  // ---------------------------------------------------------------------

  /**
    The line under a meditation's title: the occasion, then ", Year X"
    when the year is known, then " • Season" when there is a season.
  */
  function OccasionDisplay(occasion: string, year: string, season: string): (r: string)
    ensures StartsWith(r, occasion)
    ensures '•' !in occasion && '•' !in year ==> ('•' in r <==> season != [])
    ensures year != [] && year != "?" ==> Contains(r, ", Year " + year)
    ensures (year == [] || year == "?") && season == [] ==> r == occasion
  {
    var withYear := if year != [] && year != "?" then occasion + ", Year " + year else occasion;
    assert withYear[..|occasion|] == occasion;
    assert year != [] && year != "?" ==> OccursAt(withYear, ", Year " + year, |occasion|);
    var r := if season != [] then withYear + " • " + season else withYear;
    assert r[..|withYear|] == withYear;
    assert season != [] ==> r[|withYear| + 1] == '•';
    assert year != [] && year != "?" ==> OccursAt(r, ", Year " + year, |occasion|) by {
      if year != [] && year != "?" {
        assert r[|occasion|..|occasion| + |", Year " + year|] == ", Year " + year;
      }
    }
    r
  }

  // ---------------------------------------------------------------------
  // Reading the display line back (regenerate_all_indexes)
  // ---------------------------------------------------------------------

  /** Start of the whitespace run that ends just before `j` (a `\s*` read backwards). */
  function SpacesBefore(t: string, j: nat): (i: nat)
    requires j <= |t|
    ensures i <= j
    ensures forall k | i <= k < j :: IsSpace(t[k])
    ensures i > 0 ==> !IsSpace(t[i - 1])
    decreases j
  {
    if j > 0 && IsSpace(t[j - 1]) then SpacesBefore(t, j - 1) else j
  }

  /**
    Where a final `,\s*Year\s+[ABC]` starts, if `t` ends with one. The
    pattern is anchored at the end and holds only one comma, so at most
    one index can start a match, and the backward scan finds it.
  */
  function YearSuffixStart(t: string): (r: Option<nat>)
    ensures r.Some? ==> r.value < |t| && t[r.value] == ','
    ensures r.Some? ==> IsYearLetter(t[|t| - 1])
  {
    var n := |t|;
    if n == 0 || !IsYearLetter(t[n - 1]) then None
    else
      var j := SpacesBefore(t, n - 1);
      if j == n - 1 || j < 4 || t[j - 4..j] != "Year" then None
      else
        var k := SpacesBefore(t, j - 4);
        if k == 0 || t[k - 1] != ',' then None else Some(k - 1)
  }

  /** `re.sub(r',\s*Year\s+[ABC]$', '', t)`. */
  function StripYearSuffix(t: string): (r: string)
    ensures |r| <= |t| && r == t[..|r|]
  {
    match YearSuffixStart(t)
    case None => t
    case Some(p) => t[..p]
  }

  /** The occasion and season read back from a page's occasion line. */
  function SplitOccasion(full: string): (r: (string, string))
    ensures '•' !in full ==> r == (full, "")
    ensures '•' !in r.0 && '•' !in r.1
    ensures '•' in full ==> IsStripped(r.0) && IsStripped(r.1)
  {
    if '•' in full then
      var parts := SplitOn(full, '•');
      var season := if |parts| > 1 then Strip(parts[1]) else "";
      StripFreeOf(parts[0], '•');
      StripFreeOf(StripYearSuffix(Strip(parts[0])), '•');
      (Strip(StripYearSuffix(Strip(parts[0]))), season)
    else (full, "")
  }

  /** A stripped occasion followed by ", Year X" ends in exactly that suffix. */
  lemma YearSuffixOfDisplay(o: string, y: char)
    requires IsYearLetter(y)
    ensures YearSuffixStart(o + ", Year " + [y]) == Some(|o|)
  {
    var h := o + ", Year " + [y];
    var n := |h|;
    assert h[n - 1] == y && h[n - 2] == ' ' && h[n - 3] == 'r';
    assert SpacesBefore(h, n - 2) == n - 2;
    assert SpacesBefore(h, n - 1) == n - 2;
    assert h[n - 6..n - 2] == "Year";
    assert h[n - 7] == ' ' && h[n - 8] == ',';
    assert SpacesBefore(h, n - 7) == n - 7;
    assert SpacesBefore(h, n - 6) == n - 7;
  }

  /** Reading back "head • season" gives the head without its year suffix, and the season. */
  lemma ReadBack(head: string, s: string)
    requires IsStripped(head) && IsStripped(s) && s != []
    requires '•' !in head && '•' !in s
    ensures SplitOccasion(head + " • " + s) == (Strip(StripYearSuffix(head)), s)
  {
    var full := head + " • " + s;
    BulletSplit(head, s);
    assert full[|head| + 1] == '•';
    SplitOccasionOf(full, [head + " ", " " + s]);
    StripSpaceAfter(head);
    StripSpaceBefore(s);
  }

  lemma StripSpaceAfter(x: string)
    requires IsStripped(x)
    ensures Strip(x + " ") == x
  {
    StripPadded([], x, " ");
    assert [] + x + " " == x + " ";
  }

  lemma StripSpaceBefore(x: string)
    requires IsStripped(x)
    ensures Strip(" " + x) == x
  {
    StripPadded(" ", x, []);
    assert " " + x + [] == " " + x;
  }

  /** The split of a line holding a bullet, in terms of its first two pieces. */
  lemma SplitOccasionOf(full: string, parts: seq<string>)
    requires '•' in full && parts == SplitOn(full, '•') && |parts| > 1
    ensures SplitOccasion(full) == (Strip(StripYearSuffix(Strip(parts[0]))), Strip(parts[1]))
  {
  }

  lemma BulletSplit(head: string, s: string)
    requires '•' !in head && '•' !in s
    ensures SplitOn(head + " • " + s, '•') == [head + " ", " " + s]
  {
    var a := head + " ";
    var b := " " + s;
    assert head + " • " + s == a + ['•'] + b;
    SplitOnPrefix(a, b, '•');
    SplitOnNoSep(b, '•');
  }

  /**
    Reading back a display line recovers the occasion and the season
    written into it, whether or not a year letter was added.
  */
  lemma DisplayRoundTrip(o: string, year: string, s: string)
    requires IsStripped(o) && IsStripped(s) && s != []
    requires '•' !in o && '•' !in s
    requires year in ["A", "B", "C"] || ((year == [] || year == "?") && YearSuffixStart(o).None?)
    ensures SplitOccasion(OccasionDisplay(o, year, s)) == (o, s)
  {
    var head := DisplayHead(o, year);
    assert OccasionDisplay(o, year, s) == head + " • " + s;
    ReadBack(head, s);
    StripOfStripped(o);
  }

  /** The part of a display line before " • ", with its year suffix removed, is the occasion. */
  lemma DisplayHead(o: string, year: string) returns (head: string)
    requires IsStripped(o) && '•' !in o
    requires year in ["A", "B", "C"] || ((year == [] || year == "?") && YearSuffixStart(o).None?)
    ensures head == if year != [] && year != "?" then o + ", Year " + year else o
    ensures IsStripped(head) && '•' !in head
    ensures StripYearSuffix(head) == o
  {
    if year != [] && year != "?" {
      head := o + ", Year " + year;
      assert head == o + ", Year " + [year[0]];
      YearSuffixOfDisplay(o, year[0]);
      assert head[..|o|] == o;
    } else {
      head := o;
    }
  }

  // ---------------------------------------------------------------------
  // format_occasion_with_year (season pages)
  // ---------------------------------------------------------------------

  /**
    The occasion shown on a season page: "(Year X)" is added when the year
    is known and the occasion does not already name it. The Proper number
    the script also passes in is never used.
  */
  function FormatOccasionWithYear(occasion: string, year: string): (r: string)
    ensures occasion == [] <==> r == []
    ensures StartsWith(r, occasion)
    ensures occasion != [] && year != [] && year != "?" ==> Contains(r, "Year " + year)
    ensures year == [] || year == "?" ==> r == occasion
  {
    if occasion == [] then []
    else if year == "?" || year == [] then occasion
    else if Contains(occasion, "Year " + year) then occasion
    else
      var r := occasion + " (Year " + year + ")";
      assert r[|occasion| + 2..|occasion| + 2 + |"Year " + year|] == "Year " + year;
      assert OccursAt(r, "Year " + year, |occasion| + 2);
      r
  }

  /** Decorating twice adds nothing more. */
  lemma FormatOccasionIdempotent(occasion: string, year: string)
    ensures FormatOccasionWithYear(FormatOccasionWithYear(occasion, year), year)
         == FormatOccasionWithYear(occasion, year)
  {
  }
}
