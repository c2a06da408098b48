/**
  Whether a line of a meditation page can serve as its title, and which
  line the website updater takes as the title.

  `is_valid_title` exists in two versions. The one in
  fix_meditation_titles.py first removes ellipses and abbreviation stops
  such as "St. " so that they are not read as sentence breaks, and also
  rejects occasions. The one in scripts/update_tog_website_v4.py does
  neither.
*/
module Validity {
  import opened Text
  import opened Scan
  import opened Detect

  /** Longer text is body text, not a title. */
  const MaxTitleLength := 150

  // ---------------------------------------------------------------------
  // Sentence breaks: `\.\s+[A-Z]`
  // ---------------------------------------------------------------------

  /** A period at `i`, then at least one whitespace character, then a capital. */
  predicate SentenceBreakAt(t: string, i: nat) {
    i < |t| && t[i] == '.' &&
    var j := SkipSpaces(t, i + 1);
    i + 1 < j < |t| && IsUpperChar(t[j])
  }

  /** `re.search(r'\.\s+[A-Z]', t)`. */
  predicate HasSentenceBreak(t: string) {
    exists i | 0 <= i < |t| :: SentenceBreakAt(t, i)
  }

  /** Text without a period has no sentence break. */
  lemma NoPeriodNoBreak(t: string)
    requires '.' !in t
    ensures !HasSentenceBreak(t)
  {
    forall i | 0 <= i < |t| ensures !SentenceBreakAt(t, i) {
      assert t[i] in t;
    }
  }

  /** The witness of a sentence break. */
  lemma BreakAt(t: string, i: nat)
    requires i + 2 < |t| && t[i] == '.' && IsSpace(t[i + 1]) && IsUpperChar(t[i + 2])
    ensures HasSentenceBreak(t)
  {
    assert SkipSpaces(t, i + 2) == i + 2;
    assert SentenceBreakAt(t, i);
  }

  // ---------------------------------------------------------------------
  // The cleaning substitutions of fix_meditation_titles.py
  // ---------------------------------------------------------------------

  /** `re.sub(r'\.\s*\.\s*\.', '...', t)`: spaced-out ellipses become "...". */
  function EllipsisRule(t: string, i: nat): (r: Option<Hit>)
    ensures r.Some? ==> r.value.repl == "..." && 3 <= r.value.len <= |t| - i
    ensures r.Some? ==> t[i] == '.' && t[i + r.value.len - 1] == '.'
  {
    if i < |t| && t[i] == '.' then
      var j := SkipSpaces(t, i + 1);
      if j < |t| && t[j] == '.' then
        var k := SkipSpaces(t, j + 1);
        if k < |t| && t[k] == '.' then Some(Hit(k + 1 - i, "...")) else None
      else None
    else None
  }

  /** `re.sub(r'\.\.\.', '', t)`: ellipses are removed. */
  function DotsRule(t: string, i: nat): (r: Option<Hit>)
    ensures r.Some? <==> i + 3 <= |t| && t[i..i + 3] == "..."
    ensures r.Some? ==> r.value == Hit(3, "")
  {
    if i + 3 <= |t| && t[i..i + 3] == "..." then Some(Hit(3, "")) else None
  }

  /** The abbreviations of `\b(vs|Mr|Mrs|Ms|Dr|St|Rev|Jr|Sr|etc)\.\s`, in the order tried. */
  const AbbreviationCount := 10

  function Abbreviation(n: nat): (w: string)
    requires n < AbbreviationCount
    ensures 2 <= |w| <= 3
  {
    if n == 0 then "vs" else if n == 1 then "Mr" else if n == 2 then "Mrs"
    else if n == 3 then "Ms" else if n == 4 then "Dr" else if n == 5 then "St"
    else if n == 6 then "Rev" else if n == 7 then "Jr" else if n == 8 then "Sr"
    else "etc"
  }

  /** Abbreviation `n`, ignoring case, then a period and one whitespace character at `i`. */
  predicate AbbreviationStopAt(t: string, i: nat, n: nat)
    requires n < AbbreviationCount
  {
    var w := Abbreviation(n);
    FoldedAt(t, w, i) && i + |w| + 1 < |t| && t[i + |w|] == '.' && IsSpace(t[i + |w| + 1])
  }

  /** The first alternative, from `n` on, that matches at `i`. */
  function FirstAbbreviation(t: string, i: nat, n: nat): (r: Option<nat>)
    requires n <= AbbreviationCount
    ensures r.Some? ==> n <= r.value < AbbreviationCount && AbbreviationStopAt(t, i, r.value)
    ensures r.Some? ==> forall m | n <= m < r.value :: !AbbreviationStopAt(t, i, m)
    ensures r.None? ==> forall m | n <= m < AbbreviationCount :: !AbbreviationStopAt(t, i, m)
    decreases AbbreviationCount - n
  {
    if n == AbbreviationCount then None
    else if AbbreviationStopAt(t, i, n) then Some(n)
    else FirstAbbreviation(t, i, n + 1)
  }

  /**
    `re.sub(r'\b(vs|…|etc)\.\s', ' ', t, flags=re.IGNORECASE)`: an
    abbreviation, its period and the following whitespace character become
    one space.
  */
  function AbbreviationRule(t: string, i: nat): (r: Option<Hit>)
    ensures r.Some? ==> r.value.repl == " " && 4 <= r.value.len <= |t| - i
    ensures r.Some? ==> t[i + r.value.len - 2] == '.' && IsBoundary(t, i)
    ensures r.Some? ==> r.value.len == 4 || r.value.len == 5
  {
    if i <= |t| && IsBoundary(t, i) then
      match FirstAbbreviation(t, i, 0)
      case Some(n) => Some(Hit(|Abbreviation(n)| + 2, " "))
      case None => None
    else None
  }

  /** The text `is_valid_title` searches for sentence breaks. */
  function Cleaned(text: string): string {
    Sub(Sub(Sub(text, EllipsisRule), DotsRule), AbbreviationRule)
  }

  /** No rule that needs a period fires in text without one. */
  lemma CleanedWithoutPeriod(t: string)
    requires '.' !in t
    ensures Cleaned(t) == t
  {
    forall j | 0 <= j < |t| ensures !Fires(EllipsisRule, t, j) {
      assert t[j] in t;
    }
    SubNoMatch(t, EllipsisRule);
    forall j | 0 <= j < |t| ensures !Fires(DotsRule, t, j) {
      assert t[j] in t;
    }
    SubNoMatch(t, DotsRule);
    forall j | 0 <= j < |t| ensures !Fires(AbbreviationRule, t, j) {
    }
    SubNoMatch(t, AbbreviationRule);
  }

  /** Text in which none of the cleaning rules fires is searched as it stands. */
  lemma CleanedWhenNothingFires(t: string)
    requires forall j | 0 <= j < |t| :: !Fires(EllipsisRule, t, j) && !Fires(DotsRule, t, j)
    requires forall j | 0 <= j < |t| :: !Fires(AbbreviationRule, t, j)
    ensures Cleaned(t) == t
  {
    SubNoMatch(t, EllipsisRule);
    SubNoMatch(t, DotsRule);
    SubNoMatch(t, AbbreviationRule);
  }

  // ---------------------------------------------------------------------
  // is_valid_title
  // ---------------------------------------------------------------------

  /** `is_valid_title` of fix_meditation_titles.py. */
  predicate IsValidTitle(text: string) {
    text != [] && |text| <= MaxTitleLength && !HasSentenceBreak(Cleaned(text))
    && !LooksLikeScripture(text) && !LooksLikeOccasion(text)
  }

  /** `is_valid_title` of scripts/update_tog_website_v4.py. */
  predicate IsValidTitleWebsite(text: string) {
    text != [] && |text| <= MaxTitleLength && !HasSentenceBreak(text) && !LooksLikeScripture(text)
  }

  /** The rejections shared by both versions. */
  lemma InvalidTitles(text: string)
    ensures text == [] ==> !IsValidTitle(text) && !IsValidTitleWebsite(text)
    ensures |text| > MaxTitleLength ==> !IsValidTitle(text) && !IsValidTitleWebsite(text)
    ensures LooksLikeScripture(text) ==> !IsValidTitle(text) && !IsValidTitleWebsite(text)
    ensures LooksLikeOccasion(text) ==> !IsValidTitle(text)
    ensures CountChar(text, ':') >= 2 && CountChar(text, ',') >= 2 ==> !IsValidTitle(text) && !IsValidTitleWebsite(text)
  {
    ScriptureBySeparators(text);
  }

  /**
    Where no ellipsis and no abbreviation stop occurs, the two versions
    differ only in the occasion test.
  */
  lemma ValidTitleVersions(text: string)
    requires forall j | 0 <= j < |text| :: !Fires(EllipsisRule, text, j) && !Fires(DotsRule, text, j)
    requires forall j | 0 <= j < |text| :: !Fires(AbbreviationRule, text, j)
    ensures IsValidTitle(text) <==> IsValidTitleWebsite(text) && !LooksLikeOccasion(text)
  {
    CleanedWhenNothingFires(text);
  }

  /** A title without a period is judged by its length, scripture and occasion alone. */
  lemma ValidTitleWithoutPeriod(text: string)
    requires '.' !in text
    ensures IsValidTitle(text) <==> text != [] && |text| <= MaxTitleLength && !LooksLikeScripture(text) && !LooksLikeOccasion(text)
    ensures IsValidTitleWebsite(text) <==> text != [] && |text| <= MaxTitleLength && !LooksLikeScripture(text)
  {
    CleanedWithoutPeriod(text);
    NoPeriodNoBreak(text);
  }

  /** The only period of `t`, if any, is at `p`. */
  predicate PeriodOnlyAt(t: string, p: nat) {
    forall j | 0 <= j < |t| && j != p :: t[j] != '.'
  }

  /** Ellipses need three periods, so text with at most one is left alone by the first two passes. */
  lemma OnePeriodNoEllipsis(t: string, p: nat)
    requires PeriodOnlyAt(t, p)
    ensures Sub(Sub(t, EllipsisRule), DotsRule) == t
  {
    forall j | 0 <= j < |t| ensures !Fires(EllipsisRule, t, j) {
    }
    SubNoMatch(t, EllipsisRule);
    forall j | 0 <= j < |t| ensures !Fires(DotsRule, t, j) {
      if j + 3 <= |t| {
        assert t[j..j + 3][0] == t[j] && t[j..j + 3][1] == t[j + 1];
      }
    }
    SubNoMatch(t, DotsRule);
  }

  /** An abbreviation stop needs its period two or three characters on. */
  lemma AbbreviationNeedsPeriod(t: string, j: nat)
    ensures Fires(AbbreviationRule, t, j) ==> IsBoundary(t, j) && j + 3 < |t| && (t[j + 2] == '.' || t[j + 3] == '.')
  {
  }

  /**
    A period right after a word of four or more letters is no abbreviation
    stop, so it survives the cleaning; for example "Grace. Peace" keeps its
    sentence break.
  */
  lemma StopAfterLongWordKept(t: string, p: nat)
    requires PeriodOnlyAt(t, p) && 4 <= p < |t|
    requires forall k | p - 4 <= k < p :: IsAlpha(t[k])
    ensures Cleaned(t) == t
  {
    OnePeriodNoEllipsis(t, p);
    forall j | 0 <= j < |t| ensures !Fires(AbbreviationRule, t, j) {
      AbbreviationNeedsPeriod(t, j);
      if j == p - 2 || j == p - 3 {
        assert !IsBoundary(t, j);
      }
    }
    SubNoMatch(t, AbbreviationRule);
  }

  lemma TwoSentencesAreInvalid()
    ensures !IsValidTitle("Grace. Peace")
    ensures !IsValidTitleWebsite("Grace. Peace")
  {
    var t := "Grace. Peace";
    assert PeriodOnlyAt(t, 5);
    StopAfterLongWordKept(t, 5);
    BreakAt(t, 5);
  }

  /** "St. Francis": the abbreviation stop is a break only before cleaning. */
  lemma SaintIsNotABreak(t: string)
    requires t == "St. Francis"
    ensures Cleaned(t) == " Francis"
    ensures !HasSentenceBreak(Cleaned(t))
    ensures HasSentenceBreak(t)
  {
    SaintCleaned(t);
    FrancisHasNoBreak(Cleaned(t));
    BreakAt(t, 2);
  }

  lemma FrancisHasNoBreak(c: string)
    requires c == " Francis"
    ensures !HasSentenceBreak(c)
  {
    NoPeriodNoBreak(c);
  }

  lemma SaintCleaned(t: string)
    requires t == "St. Francis"
    ensures Cleaned(t) == " Francis"
  {
    SaintShape(t);
    SaintStop(t);
    CleanedLeadingStop(t, 2, 4);
  }

  lemma SaintShape(t: string)
    requires t == "St. Francis"
    ensures PeriodOnlyAt(t, 2) && " " + t[4..] == " Francis"
  {
    assert t[4..] == "Francis";
  }

  /** Text whose one period ends a leading abbreviation is cleaned to a space and the rest. */
  lemma CleanedLeadingStop(t: string, p: nat, n: nat)
    requires PeriodOnlyAt(t, p) && p < n <= |t|
    requires AbbreviationRule(t, 0) == Some(Hit(n, " "))
    ensures Cleaned(t) == " " + t[n..]
  {
    OnePeriodNoEllipsis(t, p);
    LeadingStopOnly(t, n);
  }

  /** A leading abbreviation stop with no period after it is the only substitution. */
  lemma LeadingStopOnly(t: string, n: nat)
    requires n <= |t| && AbbreviationRule(t, 0) == Some(Hit(n, " "))
    requires forall j | n <= j < |t| :: t[j] != '.'
    ensures Sub(t, AbbreviationRule) == " " + t[n..]
  {
    forall j | n <= j < |t| ensures KeepsText(AbbreviationRule, t, j) {
      AbbreviationNeedsPeriod(t, j);
    }
    SubFromIdentity(t, n, AbbreviationRule);
  }

  lemma SaintStop(t: string)
    requires t == "St. Francis"
    ensures AbbreviationRule(t, 0) == Some(Hit(4, " "))
  {
    assert AbbreviationStopAt(t, 0, 5) by {
      assert Lower(t[0..2]) == "st" by { assert t[0..2] == "St"; }
    }
    forall m | 0 <= m < 5 ensures !AbbreviationStopAt(t, 0, m) {
      SaintNotEarlier(t, m);
    }
    FirstAbbreviationIs(t, 0, 0, 5);
  }

  lemma SaintNotEarlier(t: string, m: nat)
    requires t == "St. Francis" && m < 5
    ensures !AbbreviationStopAt(t, 0, m)
  {
    if m != 2 {
      var w := Abbreviation(m);
      assert Lower(t[0..2]) == "st" by { assert t[0..2] == "St"; }
      assert Lower(w)[0] != 's';
    }
  }

  /** The first abbreviation to match is the one chosen. */
  lemma {:induction false} FirstAbbreviationIs(t: string, i: nat, from: nat, n: nat)
    requires from <= n < AbbreviationCount && AbbreviationStopAt(t, i, n)
    requires forall m | from <= m < n :: !AbbreviationStopAt(t, i, m)
    ensures FirstAbbreviation(t, i, from) == Some(n)
    decreases n - from
  {
    if from < n {
      FirstAbbreviationIs(t, i, from + 1, n);
    }
  }

  // ---------------------------------------------------------------------
  // Choice of the title source
  // ---------------------------------------------------------------------

  /** Where the website updater found a title. */
  datatype TitleSource = Heading | Paragraph

  /**
    `extract_title_from_meditation` of scripts/update_tog_website_v4.py,
    given the stripped text of the page's title heading and of the first
    paragraph of its content, each absent when the page has none.
  */
  function ExtractTitle(heading: Option<string>, firstParagraph: Option<string>): (r: Option<(string, TitleSource)>)
    ensures r.Some? ==> IsValidTitleWebsite(r.value.0)
    ensures r.Some? && r.value.1 == Heading ==> heading == Some(r.value.0)
    ensures r.Some? && r.value.1 == Paragraph ==> firstParagraph == Some(r.value.0)
    ensures heading.Some? && IsValidTitleWebsite(heading.value) ==> r == Some((heading.value, Heading))
    ensures r.None? <==>
      (heading.None? || !IsValidTitleWebsite(heading.value)) &&
      (firstParagraph.None? || !IsValidTitleWebsite(firstParagraph.value))
  {
    if heading.Some? && IsValidTitleWebsite(heading.value) && !LooksLikeScripture(heading.value) then
      Some((heading.value, Heading))
    else if firstParagraph.Some? && IsValidTitleWebsite(firstParagraph.value) then
      Some((firstParagraph.value, Paragraph))
    else None
  }

  /** A paragraph is a title for the older updater below this length. */
  const ShortTitleLength := 100

  /**
    `extract_title_from_meditation` of the v3 updater: the first content
    paragraph, when it is short and has no sentence break.
  */
  function ExtractTitleV3(firstParagraph: Option<string>): (r: Option<string>)
    ensures r.Some? <==> firstParagraph.Some? && |firstParagraph.value| < ShortTitleLength && !HasSentenceBreak(firstParagraph.value)
    ensures r.Some? ==> r == firstParagraph
  {
    if firstParagraph.Some? && |firstParagraph.value| < ShortTitleLength && !HasSentenceBreak(firstParagraph.value) then
      firstParagraph
    else None
  }

  /** A title the v3 updater accepts, the v4 updater accepts too unless it is empty or scripture. */
  lemma ExtractTitleVersions(p: string)
    requires ExtractTitleV3(Some(p)).Some? && p != [] && !LooksLikeScripture(p)
    ensures ExtractTitle(None, Some(p)) == Some((p, Paragraph))
  {
  }
}
