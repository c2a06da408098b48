/**
  The title index and the statistics appendix: the key under which titles
  are grouped (case and trailing punctuation ignored), the groups of
  meditations sharing a key with their canonical spelling, the groups
  whose members spell the title in more than one way, and the counts of
  reused essays by content hash.
*/
module Titles {
  import opened Text
  import opened Grouping
  import opened Sorting

  /** What the index knows of a meditation: its date, its title and the hash of its text. */
  datatype Med = Med(date: string, title: string, hash: string)

  // ---------------------------------------------------------------------
  // normalize_title_for_grouping / normalize_for_grouping
  // ---------------------------------------------------------------------

  /** One of the characters the key drops from the end: `!?.,:;`. */
  predicate IsTrailPunct(c: char) {
    c == '!' || c == '?' || c == '.' || c == ',' || c == ':' || c == ';'
  }

  /** `s` without its final run of `!?.,:;`. */
  function TrimTrailing(s: string): (r: string)
    ensures |r| <= |s| && r == s[..|r|]
    ensures r == [] || !IsTrailPunct(r[|r| - 1])
    ensures forall k | |r| <= k < |s| :: IsTrailPunct(s[k])
    decreases |s|
  {
    if s != [] && IsTrailPunct(s[|s| - 1]) then TrimTrailing(s[..|s| - 1]) else s
  }

  /** The grouping key: stripped, final punctuation run removed, lower-cased, stripped again. */
  function GroupingKey(title: string): string {
    Strip(Lower(TrimTrailing(Strip(title))))
  }

  /** Python `normalize_title_for_grouping` (and its copy `normalize_for_grouping`). */
  method NormalizeForGrouping(title: string) returns (key: string)
    ensures key == GroupingKey(title)
  {
    var normalized := Strip(title);
    while normalized != [] && IsTrailPunct(normalized[|normalized| - 1])
      invariant TrimTrailing(normalized) == TrimTrailing(Strip(title))
      decreases |normalized|
    {
      normalized := normalized[..|normalized| - 1];
    }
    key := Strip(Lower(normalized));
  }

  /** The key is lower-case, has no surrounding whitespace and starts `title.strip().lower()`. */
  lemma GroupingKeyShape(title: string)
    ensures forall k | 0 <= k < |GroupingKey(title)| :: !IsUpperChar(GroupingKey(title)[k])
    ensures IsStripped(GroupingKey(title))
    ensures StartsWith(Lower(Strip(title)), GroupingKey(title))
  {
    var s := Strip(title);
    var key := GroupingKey(title);
    KeyIsLoweredPrefix(s, key);
    LoweredPrefixHasNoUpper(s, key);
  }

  lemma KeyIsLoweredPrefix(s: string, key: string)
    requires IsStripped(s) && key == Strip(Lower(TrimTrailing(s)))
    ensures StartsWith(Lower(s), key)
  {
    var t := TrimTrailing(s);
    var l := Lower(t);
    LoweredTrimStripped(s, t, l);
    assert key == RStrip(l);
    LowerPrefix(s, |t|);
    StartsWithTransitive(Lower(s), l, key);
  }

  lemma LoweredTrimStripped(s: string, t: string, l: string)
    requires IsStripped(s) && t == TrimTrailing(s) && l == Lower(t)
    ensures LStrip(l) == l
  {
    assert t == [] || t[0] == s[0];
    LStripOfStripped(l);
  }

  lemma StartsWithTransitive(u: string, l: string, key: string)
    requires StartsWith(u, l) && StartsWith(l, key)
    ensures StartsWith(u, key)
  {
    assert u[..|key|] == l[..|key|];
  }

  lemma LoweredPrefixHasNoUpper(s: string, key: string)
    requires StartsWith(Lower(s), key)
    ensures forall k | 0 <= k < |key| :: !IsUpperChar(key[k])
  {
    forall k | 0 <= k < |key| ensures !IsUpperChar(key[k]) {
      assert key[k] == Lower(s)[k] == ToLowerChar(s[k]);
    }
  }

  /** Titles that differ only in letter case get the same key. */
  lemma GroupingKeyIgnoresCase(a: string, b: string)
    requires Lower(a) == Lower(b)
    ensures GroupingKey(a) == GroupingKey(b)
  {
    KeyOfLower(a);
    KeyOfLower(b);
  }

  lemma KeyOfLower(t: string)
    ensures GroupingKey(t) == Strip(Lower(TrimTrailing(Strip(Lower(t)))))
  {
    StripLower(t);
    TrimTrailingLower(Strip(t));
    LowerIdempotent(TrimTrailing(Strip(t)));
  }

  /** Stripping and lower-casing commute (case mappings never touch whitespace). */
  lemma StripLower(s: string)
    ensures Strip(Lower(s)) == Lower(Strip(s))
  {
    LStripLower(s);
    RStripLower(LStrip(s));
  }

  lemma {:induction false} LStripLower(s: string)
    ensures LStrip(Lower(s)) == Lower(LStrip(s))
    decreases |s|
  {
    if s != [] && IsSpace(s[0]) {
      assert Lower(s)[1..] == Lower(s[1..]);
      LStripLower(s[1..]);
    }
  }

  lemma {:induction false} RStripLower(s: string)
    ensures RStrip(Lower(s)) == Lower(RStrip(s))
    decreases |s|
  {
    if s != [] && IsSpace(s[|s| - 1]) {
      assert Lower(s)[..|s| - 1] == Lower(s[..|s| - 1]);
      RStripLower(s[..|s| - 1]);
    }
  }

  lemma {:induction false} TrimTrailingLower(s: string)
    ensures TrimTrailing(Lower(s)) == Lower(TrimTrailing(s))
    decreases |s|
  {
    if s != [] && IsTrailPunct(s[|s| - 1]) {
      assert Lower(s)[..|s| - 1] == Lower(s[..|s| - 1]);
      TrimTrailingLower(s[..|s| - 1]);
    }
  }

  /** A stripped title followed by any run of `!?.,:;` has the title's own key. */
  lemma TrailingPunctuationIgnored(t: string, p: string)
    requires IsStripped(t)
    requires forall k | 0 <= k < |p| :: IsTrailPunct(p[k])
    ensures GroupingKey(t + p) == GroupingKey(t)
  {
    SameTrimmed(t, p);
  }

  lemma SameTrimmed(t: string, p: string)
    requires IsStripped(t)
    requires forall k | 0 <= k < |p| :: IsTrailPunct(p[k])
    ensures TrimTrailing(Strip(t + p)) == TrimTrailing(Strip(t))
  {
    calc {
      TrimTrailing(Strip(t + p));
      { PunctuatedStripped(t, p); }
      TrimTrailing(t + p);
      { TrimTrailingAppend(t, p); }
      TrimTrailing(t);
      { StripOfStripped(t); }
      TrimTrailing(Strip(t));
    }
  }

  lemma PunctuatedStripped(t: string, p: string)
    requires IsStripped(t)
    requires forall k | 0 <= k < |p| :: IsTrailPunct(p[k])
    ensures Strip(t + p) == t + p
  {
    var s := t + p;
    if p != [] {
      assert s[|s| - 1] == p[|p| - 1];
      assert s[0] == if t == [] then p[0] else t[0];
    } else {
      assert s == t;
    }
    StripOfStripped(s);
  }

  lemma {:induction false} TrimTrailingAppend(t: string, p: string)
    requires forall k | 0 <= k < |p| :: IsTrailPunct(p[k])
    ensures TrimTrailing(t + p) == TrimTrailing(t)
    decreases |p|
  {
    if p != [] {
      var s := t + p;
      assert s[..|s| - 1] == t + p[..|p| - 1];
      TrimTrailingAppend(t, p[..|p| - 1]);
    } else {
      assert t + p == t;
    }
  }

  // ---------------------------------------------------------------------
  // generate_title_index: groups and their canonical title
  // ---------------------------------------------------------------------

  function TitleKey(m: Med): string {
    GroupingKey(m.title)
  }

  function TitleOf(m: Med): string {
    m.title
  }

  function DateOf(m: Med): string {
    m.date
  }

  /** `a` is the better canonical title than `b`: more frequent, or as frequent and greater. */
  predicate Beats(titles: seq<string>, a: string, b: string) {
    Count(titles, a) > Count(titles, b) || (Count(titles, a) == Count(titles, b) && LexLess(b, a))
  }

  /** `c` is a most frequent spelling, and the greatest among the most frequent. */
  predicate IsCanonical(titles: seq<string>, c: string) {
    c in titles && forall t | t in titles :: !Beats(titles, t, c)
  }

  /**
    `max(title_counts.keys(), key=lambda t: (title_counts[t], t))`: the
    most frequent spelling, ties going to the greatest string. The keys
    of the counter are the spellings themselves, so the scan runs over
    the spellings in order.
  */
  method CanonicalTitle(titles: seq<string>) returns (canonical: string)
    requires titles != []
    ensures IsCanonical(titles, canonical)
  {
    var counts := Tally(titles);
    canonical := titles[0];
    LexLessIrreflexive(canonical);
    for i := 1 to |titles|
      invariant canonical in titles
      invariant forall k | 0 <= k < i :: !Beats(titles, titles[k], canonical)
    {
      var c := titles[i];
      if Get(counts, c) > Get(counts, canonical) || (Get(counts, c) == Get(counts, canonical) && LexLess(canonical, c)) {
        forall k | 0 <= k < i ensures !Beats(titles, titles[k], c) {
          BeatsTransitive(titles, titles[k], canonical, c);
        }
        LexLessIrreflexive(c);
        canonical := c;
      }
    }
    forall t | t in titles ensures !Beats(titles, t, canonical) {
      var k :| 0 <= k < |titles| && titles[k] == t;
    }
  }

  lemma BeatsTransitive(titles: seq<string>, a: string, b: string, c: string)
    requires !Beats(titles, a, b) && Beats(titles, c, b)
    ensures !Beats(titles, a, c)
  {
    if Beats(titles, a, c) && Count(titles, a) == Count(titles, c) && Count(titles, c) == Count(titles, b) {
      LexLessTransitive(b, c, a);
    }
  }

  /** The canonical title is the only spelling no other spelling beats. */
  lemma CanonicalUnique(titles: seq<string>, a: string, b: string)
    requires IsCanonical(titles, a) && IsCanonical(titles, b)
    ensures a == b
  {
    assert !Beats(titles, a, b) && !Beats(titles, b, a);
    LexLessTotal(a, b);
  }

  /** One entry of the title index. */
  datatype TitleGroup = TitleGroup(canonical: string, key: string, meds: seq<Med>)

  function Titles(meds: seq<Med>): (r: seq<string>)
    ensures |r| == |meds|
    ensures forall k | 0 <= k < |meds| :: r[k] == meds[k].title
  {
    seq(|meds|, k requires 0 <= k < |meds| => meds[k].title)
  }

  /** An index entry shows group `g`: its key, its members by date, its canonical spelling. */
  predicate Shows(e: TitleGroup, g: Group<string, Med>) {
    && e.key == g.key
    && e.meds == SortBy(g.items, DateOf, false)
    && IsCanonical(Titles(g.items), e.canonical)
  }

  /**
    The grouping of `generate_title_index`: meditations filed under their
    title key, each group with its members sorted by date and its
    canonical spelling.
  */
  method TitleGroups(meds: seq<Med>) returns (groups: seq<TitleGroup>)
    ensures |groups| == |GroupBy(meds, TitleKey)|
    ensures forall j | 0 <= j < |groups| :: Shows(groups[j], GroupBy(meds, TitleKey)[j])
  {
    var byKey := Accumulate(meds, TitleKey);
    GroupsNonEmpty(meds, TitleKey);
    groups := [];
    for j := 0 to |byKey|
      invariant |groups| == j
      invariant forall i | 0 <= i < j :: Shows(groups[i], byKey[i])
    {
      var g := byKey[j];
      assert g in byKey;
      var canonical := CanonicalTitle(Titles(g.items));
      var e := TitleGroup(canonical, g.key, SortBy(g.items, DateOf, false));
      assert Shows(e, g);
      ShowsSnoc(groups, byKey, e, j);
      groups := groups + [e];
    }
  }

  lemma ShowsSnoc(es: seq<TitleGroup>, gs: seq<Group<string, Med>>, e: TitleGroup, j: nat)
    requires |es| == j < |gs|
    requires forall i | 0 <= i < j :: Shows(es[i], gs[i])
    requires Shows(e, gs[j])
    ensures forall i | 0 <= i < j + 1 :: Shows((es + [e])[i], gs[i])
  {
  }

  /** Every meditation is in exactly one group: the group sizes add up to the number of meditations. */
  lemma TitleGroupsPartition(meds: seq<Med>)
    ensures TotalSize(GroupBy(meds, TitleKey)) == |meds|
    ensures forall g | g in GroupBy(meds, TitleKey) :: g.items != []
  {
    GroupsPartition(meds, TitleKey);
    GroupsNonEmpty(meds, TitleKey);
  }

  // ---------------------------------------------------------------------
  // generate_title_index: alphabetical order and letter sections
  // ---------------------------------------------------------------------

  /** The order of the index: the canonical title upper-cased. */
  function UpperCanonical(e: TitleGroup): string {
    Upper(e.canonical)
  }

  /**
    The section a group is listed under: the upper-cased first character
    of its canonical title when that is a letter, and `#` for a title that
    starts otherwise or is empty.
  */
  function LetterOf(e: TitleGroup): (c: char)
    ensures c == '#' || IsUpperChar(c)
    ensures c != '#' <==> e.canonical != [] && IsAlpha(e.canonical[0])
  {
    if e.canonical != [] && IsAlpha(e.canonical[0]) then ToUpperChar(e.canonical[0]) else '#'
  }

  /** The groups in order of their upper-cased canonical title, filed under their letter. */
  function Sections(groups: seq<TitleGroup>): seq<Group<char, TitleGroup>> {
    GroupBy(SortBy(groups, UpperCanonical, false), LetterOf)
  }

  /**
    `processed_groups.sort(key=upper)` followed by the `by_letter`
    accumulation loop.
  */
  method LetterSections(groups: seq<TitleGroup>) returns (byLetter: seq<Group<char, TitleGroup>>)
    ensures byLetter == Sections(groups)
  {
    var ordered := SortBy(groups, UpperCanonical, false);
    byLetter := Accumulate(ordered, LetterOf);
  }

  /** Every group appears exactly once across the sections, each headed by a capital letter or `#`. */
  lemma SectionsPartition(groups: seq<TitleGroup>)
    ensures TotalSize(Sections(groups)) == |groups|
    ensures forall s | s in Sections(groups) :: s.key == '#' || IsUpperChar(s.key)
  {
    var ordered := SortBy(groups, UpperCanonical, false);
    GroupsPartition(ordered, LetterOf);
    var ks := KeysOf(ordered, LetterOf);
    forall s | s in Sections(groups) ensures s.key == '#' || IsUpperChar(s.key) {
      var j :| 0 <= j < |ks| && s == Group(ks[j], Filter(ordered, LetterOf, ks[j]));
      assert ks[j] in ks;
    }
  }

  /**
    The section under `c` holds exactly the groups with that heading and
    lists them in order of their upper-cased canonical title.
  */
  lemma SectionContents(groups: seq<TitleGroup>, c: char)
    ensures forall e :: e in Lookup(Sections(groups), c) <==> e in groups && LetterOf(e) == c
    ensures SortedBy(Lookup(Sections(groups), c), UpperCanonical, false)
  {
    var ordered := SortBy(groups, UpperCanonical, false);
    LookupGroupBy(ordered, LetterOf, c);
    FilterMember(ordered, LetterOf, c);
    forall e ensures e in ordered <==> e in groups {
      assert e in ordered <==> e in multiset(ordered);
      assert e in groups <==> e in multiset(groups);
    }
    SortBySorted(groups, UpperCanonical, false);
    FilterSorted(ordered, LetterOf, c, UpperCanonical, false);
  }

  // ---------------------------------------------------------------------
  // find_near_match_titles
  // ---------------------------------------------------------------------

  /** The items spell the title in at least two ways. */
  predicate HasTwoTitles(items: seq<Med>) {
    exists i, j | 0 <= i < |items| && 0 <= j < |items| :: items[i].title != items[j].title
  }

  function NearGroups(gs: seq<Group<string, Med>>): (r: seq<Group<string, Med>>)
    ensures |r| <= |gs|
    ensures forall g | g in r :: g in gs && HasTwoTitles(g.items)
    ensures forall g | g in gs && HasTwoTitles(g.items) :: g in r
    decreases |gs|
  {
    if gs == [] then []
    else
      var rest := NearGroups(gs[1..]);
      assert forall g | g in gs[1..] :: g in gs;
      assert forall g | g in gs :: g == gs[0] || g in gs[1..];
      if HasTwoTitles(gs[0].items) then [gs[0]] + rest else rest
  }

  /**
    Python `find_near_match_titles`: the title keys whose items carry two
    or more different titles (`len(set(titles)) > 1`), each with all its
    items.
  */
  method NearMatches(meds: seq<Med>) returns (near: seq<Group<string, Med>>)
    ensures near == NearGroups(GroupBy(meds, TitleKey))
  {
    var groups := Accumulate(meds, TitleKey);
    near := [];
    var j := |groups|;
    while j > 0
      invariant 0 <= j <= |groups|
      invariant near == NearGroups(groups[j..])
      decreases j
    {
      j := j - 1;
      var items := groups[j].items;
      var unique := set k | 0 <= k < |items| :: items[k].title;
      DistinctTitles(items);
      assert groups[j..][1..] == groups[j + 1..];
      if |unique| > 1 {
        near := [groups[j]] + near;
      }
    }
    assert groups[0..] == groups;
  }

  /** More than one distinct title in the set exactly when two items disagree. */
  lemma DistinctTitles(items: seq<Med>)
    ensures |set k | 0 <= k < |items| :: items[k].title| > 1 <==> HasTwoTitles(items)
  {
    var s := set k | 0 <= k < |items| :: items[k].title;
    if HasTwoTitles(items) {
      var i, j :| 0 <= i < |items| && 0 <= j < |items| && items[i].title != items[j].title;
      assert {items[i].title, items[j].title} <= s;
      assert |{items[i].title, items[j].title}| == 2;
      SubsetSize({items[i].title, items[j].title}, s);
    }
    assert items == [] ==> s == {};
    if |s| > 1 {
      var t0 := items[0].title;
      var u :| u in s && u != t0 by {
        if forall u | u in s :: u == t0 {
          assert s <= {t0};
          SubsetSize(s, {t0});
        }
      }
      var k :| 0 <= k < |items| && items[k].title == u;
    }
  }

  lemma SubsetSize<T>(a: set<T>, b: set<T>)
    requires a <= b
    ensures |a| <= |b|
  {
    assert b == a + (b - a);
  }

  // ---------------------------------------------------------------------
  // generate_statistics_appendix: reuse by content hash
  // ---------------------------------------------------------------------

  function HashOf(m: Med): string {
    m.hash
  }

  /** Items beyond the first in each group. */
  function Extras<K, V>(gs: seq<Group<K, V>>): int
    decreases |gs|
  {
    if gs == [] then 0 else |gs[0].items| - 1 + Extras(gs[1..])
  }

  /** Number of groups with more than one item (`reused_count`). */
  function Repeated<K, V>(gs: seq<Group<K, V>>): (n: nat)
    ensures n <= |gs|
    decreases |gs|
  {
    if gs == [] then 0 else (if |gs[0].items| > 1 then 1 else 0) + Repeated(gs[1..])
  }

  /**
    `reuse_instances = total - unique_essays` is the number of items
    beyond the first in each hash group; it is never negative and never
    smaller than the number of reused essays.
  */
  lemma ReuseInstances(meds: seq<Med>)
    ensures |meds| - |GroupBy(meds, HashOf)| == Extras(GroupBy(meds, HashOf))
    ensures 0 <= Repeated(GroupBy(meds, HashOf)) <= |meds| - |GroupBy(meds, HashOf)|
  {
    var gs := GroupBy(meds, HashOf);
    GroupsPartition(meds, HashOf);
    GroupsNonEmpty(meds, HashOf);
    ExtrasCount(gs);
  }

  /** One entry of `repeated_essays`: the title of the first use and all uses by date. */
  datatype Repeat = Repeat(title: string, meds: seq<Med>)

  function RepeatOf(g: Group<string, Med>): Repeat
    requires g.items != []
  {
    Repeat(g.items[0].title, SortBy(g.items, DateOf, false))
  }

  /** The date of an entry's first use. */
  function FirstUse(r: Repeat): string {
    if r.meds == [] then "" else r.meds[0].date
  }

  /** The hash groups of more than one meditation, in group order. */
  function Repeats(gs: seq<Group<string, Med>>): (r: seq<Repeat>)
    ensures |r| == Repeated(gs)
    decreases |gs|
  {
    if gs == [] then []
    else
      var rest := Repeats(gs[1..]);
      if |gs[0].items| > 1 then [RepeatOf(gs[0])] + rest else rest
  }

  /** `repeated_essays`, sorted by the date of first use. */
  function RepeatedEssays(meds: seq<Med>): seq<Repeat> {
    SortBy(Repeats(GroupBy(meds, HashOf)), FirstUse, false)
  }

  /** The list has one entry per reused essay and runs by date of first use. */
  lemma RepeatedEssaysOrder(meds: seq<Med>)
    ensures |RepeatedEssays(meds)| == Repeated(GroupBy(meds, HashOf))
    ensures SortedBy(RepeatedEssays(meds), FirstUse, false)
  {
    SortBySorted(Repeats(GroupBy(meds, HashOf)), FirstUse, false);
  }

  /** An entry lists all uses of its essay by date, so its first use is its earliest. */
  lemma RepeatOfSorted(g: Group<string, Med>)
    requires g.items != []
    ensures multiset(RepeatOf(g).meds) == multiset(g.items)
    ensures SortedBy(RepeatOf(g).meds, DateOf, false)
    ensures FirstUse(RepeatOf(g)) == RepeatOf(g).meds[0].date
  {
    SortBySorted(g.items, DateOf, false);
  }

  lemma RepeatsMember(gs: seq<Group<string, Med>>, x: Repeat)
    ensures x in Repeats(gs) <==> exists g | g in gs :: |g.items| > 1 && x == RepeatOf(g)
  {
    if x in Repeats(gs) {
      RepeatFromGroup(gs, x);
    }
    if exists g | g in gs :: |g.items| > 1 && x == RepeatOf(g) {
      var g :| g in gs && |g.items| > 1 && x == RepeatOf(g);
      GroupGivesRepeat(gs, g);
    }
  }

  lemma {:induction false} RepeatFromGroup(gs: seq<Group<string, Med>>, x: Repeat)
    requires x in Repeats(gs)
    ensures exists g | g in gs :: |g.items| > 1 && x == RepeatOf(g)
    decreases |gs|
  {
    if |gs[0].items| > 1 && x == RepeatOf(gs[0]) {
      assert gs[0] in gs;
    } else {
      RepeatFromGroup(gs[1..], x);
      var g :| g in gs[1..] && |g.items| > 1 && x == RepeatOf(g);
      assert g in gs;
    }
  }

  lemma {:induction false} GroupGivesRepeat(gs: seq<Group<string, Med>>, g: Group<string, Med>)
    requires g in gs && |g.items| > 1
    ensures RepeatOf(g) in Repeats(gs)
    decreases |gs|
  {
    if gs[0] != g {
      assert g in gs[1..];
      GroupGivesRepeat(gs[1..], g);
    }
  }

  /**
    The repeated essays are exactly the hash groups of two or more
    meditations, one entry each, titled by the group's first meditation.
  */
  lemma RepeatedEssaysMember(meds: seq<Med>, x: Repeat)
    ensures x in RepeatedEssays(meds) <==>
      exists g | g in GroupBy(meds, HashOf) :: |g.items| > 1 && x == RepeatOf(g)
  {
    var rs := Repeats(GroupBy(meds, HashOf));
    assert x in RepeatedEssays(meds) <==> x in rs by {
      assert x in RepeatedEssays(meds) <==> x in multiset(RepeatedEssays(meds));
      assert x in rs <==> x in multiset(rs);
    }
    RepeatsMember(GroupBy(meds, HashOf), x);
  }

  lemma {:induction false} ExtrasCount<K, V>(gs: seq<Group<K, V>>)
    requires forall g | g in gs :: g.items != []
    ensures Extras(gs) == TotalSize(gs) - |gs|
    ensures Repeated(gs) <= Extras(gs)
    decreases |gs|
  {
    if gs != [] {
      assert gs[0] in gs;
      assert forall g | g in gs[1..] :: g in gs;
      ExtrasCount(gs[1..]);
    }
  }
}
