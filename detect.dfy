/**
  The heuristics the fix-up scripts use to tell what a line of text is:
  `looks_like_scripture` (the same function in `fix_meditation_titles.py`
  and `scripts/update_tog_website_v4.py`), `contains_scripture` from
  `scripts/fix_meditation_readings.py` and `looks_like_occasion` from
  `fix_meditation_titles.py`.

  Every regular expression is searched anywhere in the text; `re.search`
  succeeds when the pattern matches at some index, which is how each
  predicate below is written.
*/
module Detect {
  import opened Text
  import opened Scan

  // ---------------------------------------------------------------------
  // looks_like_scripture
  // ---------------------------------------------------------------------

  /** Number of alternatives in the book-name group of the chapter:verse pattern. */
  const NameCount := 56

  /** Alternative `k` of the book-name group, in the order of the pattern. */
  function ScriptureName(k: nat): string
    requires k < 56
  {
    if k < 10 then NameRow0(k)
    else if k < 20 then NameRow1(k - 10)
    else if k < 30 then NameRow2(k - 20)
    else if k < 40 then NameRow3(k - 30)
    else if k < 50 then NameRow4(k - 40)
    else NameRow5(k - 50)
  }

  function NameRow0(k: nat): string
    requires k < 10
  {
    if k == 0 then "Genesis"
    else if k == 1 then "Exodus"
    else if k == 2 then "Leviticus"
    else if k == 3 then "Numbers"
    else if k == 4 then "Deuteronomy"
    else if k == 5 then "Joshua"
    else if k == 6 then "Judges"
    else if k == 7 then "Ruth"
    else if k == 8 then "Samuel"
    else "Kings"
  }

  function NameRow1(k: nat): string
    requires k < 10
  {
    if k == 0 then "Chronicles"
    else if k == 1 then "Ezra"
    else if k == 2 then "Nehemiah"
    else if k == 3 then "Esther"
    else if k == 4 then "Job"
    else if k == 5 then "Psalm"
    else if k == 6 then "Proverbs"
    else if k == 7 then "Ecclesiastes"
    else if k == 8 then "Song"
    else "Isaiah"
  }

  function NameRow2(k: nat): string
    requires k < 10
  {
    if k == 0 then "Jeremiah"
    else if k == 1 then "Lamentations"
    else if k == 2 then "Ezekiel"
    else if k == 3 then "Daniel"
    else if k == 4 then "Hosea"
    else if k == 5 then "Joel"
    else if k == 6 then "Amos"
    else if k == 7 then "Obadiah"
    else if k == 8 then "Jonah"
    else "Micah"
  }

  function NameRow3(k: nat): string
    requires k < 10
  {
    if k == 0 then "Nahum"
    else if k == 1 then "Habakkuk"
    else if k == 2 then "Zephaniah"
    else if k == 3 then "Haggai"
    else if k == 4 then "Zechariah"
    else if k == 5 then "Malachi"
    else if k == 6 then "Matthew"
    else if k == 7 then "Mark"
    else if k == 8 then "Luke"
    else "John"
  }

  function NameRow4(k: nat): string
    requires k < 10
  {
    if k == 0 then "Acts"
    else if k == 1 then "Romans"
    else if k == 2 then "Corinthians"
    else if k == 3 then "Galatians"
    else if k == 4 then "Ephesians"
    else if k == 5 then "Philippians"
    else if k == 6 then "Colossians"
    else if k == 7 then "Thessalonians"
    else if k == 8 then "Timothy"
    else "Titus"
  }

  function NameRow5(k: nat): string
    requires k < 6
  {
    if k == 0 then "Philemon"
    else if k == 1 then "Hebrews"
    else if k == 2 then "James"
    else if k == 3 then "Peter"
    else if k == 4 then "Jude"
    else "Revelation"
  }

  /** The book names that may follow a Roman-numeral prefix. */
  function RomanName(n: nat): string
    requires n < 8
  {
    if n == 0 then "Samuel"
    else if n == 1 then "Kings"
    else if n == 2 then "Chronicles"
    else if n == 3 then "Corinthians"
    else if n == 4 then "Thessalonians"
    else if n == 5 then "Timothy"
    else if n == 6 then "Peter"
    else "John"
  }

  /**
    `name\s*\d+:\d+` at `i`, the name compared without regard to case. The
    whitespace and digit runs are greedy and cannot give anything back that
    would help the next item match, so each is read to its end.
  */
  predicate ChapterVerseAfter(t: string, i: nat, name: string) {
    FoldedAt(t, name, i) &&
    var j := SkipSpaces(t, i + |name|);
    var d := SkipDigits(t, j);
    j < d && d + 1 < |t| && t[d] == ':' && IsDigit(t[d + 1])
  }

  /** `\b(Genesis|...|Revelation)\s*\d+:\d+` matches at `i`. */
  predicate BookPatternAt(t: string, i: nat)
    requires i <= |t|
  {
    IsBoundary(t, i) &&
    exists k | 0 <= k < NameCount :: ChapterVerseAfter(t, i, ScriptureName(k))
  }

  /** `[I]{1,3}` with `re.IGNORECASE`: `k` letters i or I from `i`. */
  predicate RomanRun(t: string, i: nat, k: nat) {
    i + k <= |t| && forall m | i <= m < i + k :: t[m] == 'i' || t[m] == 'I'
  }

  /**
    `\b[I]{1,3}\s*(Samuel|...|John)\s*\d*:?\d*` matches at `i`; the part
    after the name can always match the empty string.
  */
  predicate RomanPatternAt(t: string, i: nat)
    requires i <= |t|
  {
    IsBoundary(t, i) &&
    (RomanAt(t, i, 1) || RomanAt(t, i, 2) || RomanAt(t, i, 3))
  }

  /** `k` Roman-numeral letters from `i`, then optional whitespace and a Roman-prefixed book name. */
  predicate RomanAt(t: string, i: nat, k: nat) {
    RomanRun(t, i, k) && RomanNameAfter(t, SkipSpaces(t, i + k))
  }

  /** One of the Roman-prefixed book names at `j`, compared without regard to case. */
  predicate RomanNameAfter(t: string, j: nat) {
    exists n | 0 <= n < 8 :: FoldedAt(t, RomanName(n), j)
  }

  /** At least two colons and at least two commas. */
  predicate ManySeparators(t: string) {
    CountChar(t, ':') >= 2 && CountChar(t, ',') >= 2
  }

  /** `looks_like_scripture(text)`. */
  predicate LooksLikeScripture(text: string) {
    text != [] &&
    (ManySeparators(text)
     || (exists i | 0 <= i <= |text| :: BookPatternAt(text, i))
     || (exists i | 0 <= i <= |text| :: RomanPatternAt(text, i)))
  }

  /** Empty text is never scripture, and two colons with two commas always are. */
  lemma ScriptureBySeparators(text: string)
    ensures text == [] ==> !LooksLikeScripture(text)
    ensures ManySeparators(text) ==> LooksLikeScripture(text)
  {
  }

  /** Without any digit the chapter:verse pattern cannot match. */
  lemma NoDigitsNoBook(t: string)
    requires forall m | 0 <= m < |t| :: !IsDigit(t[m])
    ensures forall i | 0 <= i <= |t| :: !BookPatternAt(t, i)
  {
    forall i, name | 0 <= i <= |t| ensures !ChapterVerseAfter(t, i, name) {
      if FoldedAt(t, name, i) {
        var j := SkipSpaces(t, i + |name|);
        if j < |t| {
          assert !IsDigit(t[j]);
        }
      }
    }
  }

  /** The test is blind to case: it gives the same answer on the lower-cased text. */
  lemma ScriptureIgnoresCase(t: string)
    ensures LooksLikeScripture(Lower(t)) == LooksLikeScripture(t)
  {
    var l := Lower(t);
    CountCharLower(t, ':');
    CountCharLower(t, ',');
    forall i | 0 <= i <= |t| ensures BookPatternAt(l, i) == BookPatternAt(t, i) {
      BoundaryOfLower(t, i);
      forall k | 0 <= k < NameCount
        ensures ChapterVerseAfter(l, i, ScriptureName(k)) == ChapterVerseAfter(t, i, ScriptureName(k))
      {
        ChapterVerseAfterLower(t, i, ScriptureName(k));
      }
    }
    forall i | 0 <= i <= |t| ensures RomanPatternAt(l, i) == RomanPatternAt(t, i) {
      RomanPatternAtLower(t, i);
    }
  }

  lemma ChapterVerseAfterLower(t: string, i: nat, name: string)
    ensures ChapterVerseAfter(Lower(t), i, name) == ChapterVerseAfter(t, i, name)
  {
    FoldedAtLower(t, name, i);
    if FoldedAt(t, name, i) {
      var j := SkipSpaces(t, i + |name|);
      SkipSpacesLower(t, i + |name|);
      SkipDigitsLower(t, j);
    }
  }

  lemma RomanPatternAtLower(t: string, i: nat)
    requires i <= |t|
    ensures RomanPatternAt(Lower(t), i) == RomanPatternAt(t, i)
  {
    BoundaryOfLower(t, i);
    RomanAtLower(t, i, 1);
    RomanAtLower(t, i, 2);
    RomanAtLower(t, i, 3);
  }

  lemma RomanAtLower(t: string, i: nat, k: nat)
    ensures RomanAt(Lower(t), i, k) == RomanAt(t, i, k)
  {
    if i + k <= |t| {
      SkipSpacesLower(t, i + k);
      RomanNameAfterLower(t, SkipSpaces(t, i + k));
    }
  }

  lemma RomanNameAfterLower(t: string, j: nat)
    ensures RomanNameAfter(Lower(t), j) == RomanNameAfter(t, j)
  {
    forall n | 0 <= n < 8 ensures FoldedAt(Lower(t), RomanName(n), j) == FoldedAt(t, RomanName(n), j) {
      FoldedAtLower(t, RomanName(n), j);
    }
  }

  /** `t` opens with `name`, one space, the digit run `t[|name| + 1..d]`, a colon and a digit. */
  predicate OpensWithCitation(t: string, name: string, d: nat) {
    |name| + 1 < d && d + 1 < |t| && t[..|name|] == name && t[|name|] == ' '
    && AllDigits(t[|name| + 1..d]) && t[d] == ':' && IsDigit(t[d + 1])
  }

  /** Text that opens with a listed book name and a chapter:verse is scripture, whatever follows. */
  lemma ScriptureAtStart(t: string, k: nat, d: nat)
    requires k < NameCount && OpensWithCitation(t, ScriptureName(k), d)
    ensures LooksLikeScripture(t)
  {
    var name := ScriptureName(k);
    NameStartsWithLetter(k);
    BookAtStart(t, name, d);
    assert BookPatternAt(t, 0);
  }

  lemma BookAtStart(t: string, name: string, d: nat)
    requires name != [] && IsAlpha(name[0]) && OpensWithCitation(t, name, d)
    ensures IsBoundary(t, 0) && ChapterVerseAfter(t, 0, name)
  {
    assert t[0] == name[0];
    assert t[0..|name|] == name;
    assert IsDigit(t[|name| + 1]) by { assert t[|name| + 1..d][0] == t[|name| + 1]; }
    assert SkipSpaces(t, |name|) == |name| + 1 by {
      assert SkipSpaces(t, |name| + 1) == |name| + 1;
    }
    SkipDigitsOverRun(t, |name| + 1, t[|name| + 1..d]);
  }

  /** A book name followed by a space and `chapter:verse` is scripture, whatever follows. */
  lemma ScriptureOfCitation(k: nat, cs: string, vs: string, rest: string)
    requires k < NameCount
    requires cs != [] && AllDigits(cs) && vs != [] && AllDigits(vs)
    ensures LooksLikeScripture(ScriptureName(k) + " " + cs + ":" + vs + rest)
  {
    var name := ScriptureName(k);
    CitationLayout(name, cs, vs, rest);
    ScriptureAtStart(name + " " + cs + ":" + vs + rest, k, |name| + 1 + |cs|);
  }

  /** Where the pieces of `name + " " + cs + ":" + vs + rest` sit. */
  lemma CitationLayout(name: string, cs: string, vs: string, rest: string)
    requires cs != [] && AllDigits(cs) && vs != [] && AllDigits(vs)
    ensures OpensWithCitation(name + " " + cs + ":" + vs + rest, name, |name| + 1 + |cs|)
  {
    var t, d := name + " " + cs + ":" + vs + rest, |name| + 1 + |cs|;
    assert t[..|name|] == name;
    assert t[|name|] == ' ';
    assert t[|name| + 1..d] == cs;
    assert t[d] == ':';
    assert t[d + 1] == vs[0];
  }

  lemma NameStartsWithLetter(k: nat)
    requires k < NameCount
    ensures ScriptureName(k) != [] && IsAlpha(ScriptureName(k)[0])
  {
    if k < 10 { NameRowLetter0(k); }
    else if k < 20 { NameRowLetter1(k - 10); }
    else if k < 30 { NameRowLetter2(k - 20); }
    else if k < 40 { NameRowLetter3(k - 30); }
    else if k < 50 { NameRowLetter4(k - 40); }
    else { NameRowLetter5(k - 50); }
  }

  lemma NameRowLetter0(k: nat) requires k < 10 ensures NameRow0(k) != [] && IsAlpha(NameRow0(k)[0]) { }
  lemma NameRowLetter1(k: nat) requires k < 10 ensures NameRow1(k) != [] && IsAlpha(NameRow1(k)[0]) { }
  lemma NameRowLetter2(k: nat) requires k < 10 ensures NameRow2(k) != [] && IsAlpha(NameRow2(k)[0]) { }
  lemma NameRowLetter3(k: nat) requires k < 10 ensures NameRow3(k) != [] && IsAlpha(NameRow3(k)[0]) { }
  lemma NameRowLetter4(k: nat) requires k < 10 ensures NameRow4(k) != [] && IsAlpha(NameRow4(k)[0]) { }
  lemma NameRowLetter5(k: nat) requires k < 6 ensures NameRow5(k) != [] && IsAlpha(NameRow5(k)[0]) { }

  lemma {:induction false} SkipDigitsOverRun(t: string, i: nat, s: string)
    requires AllDigits(s) && OccursAt(t, s, i)
    requires i + |s| == |t| || !IsDigit(t[i + |s|])
    ensures SkipDigits(t, i) == i + |s|
    decreases |s|
  {
    if s != [] {
      assert t[i] == s[0];
      assert OccursAt(t, s[1..], i + 1) by {
        assert t[i + 1..i + 1 + |s[1..]|] == t[i..i + |s|][1..];
      }
      SkipDigitsOverRun(t, i + 1, s[1..]);
    }
  }

  /** The first example of the documentation: a list of four readings. */
  lemma IsaiahReadingsAreScripture()
    ensures LooksLikeScripture("Isaiah 60:1-6, Psalm 72:1-7, " + "Ephesians 3:1-12, Matthew 2:1-12")
  {
    var a := "Isaiah 60:1-6, Psalm 72:1-7, ";
    var t := a + "Ephesians 3:1-12, Matthew 2:1-12";
    assert ScriptureName(19) == "Isaiah";
    assert t[..6] == a[..6] == "Isaiah";
    assert t[7] == '6' && t[8] == '0';
    assert AllDigits(t[7..9]);
    assert t[6] == ' ' && t[9] == ':' && t[10] == '1';
    ScriptureAtStart(t, 19, 9);
  }

  /** The second example, whose last reading runs the digits into the book name. */
  lemma ActsReadingsAreScripture()
    ensures LooksLikeScripture("Acts 10:34-43, Psalm 118:1-2, " + "14-24, I Corinthians15:1-11")
  {
    var a := "Acts 10:34-43, Psalm 118:1-2, ";
    var t := a + "14-24, I Corinthians15:1-11";
    assert ScriptureName(40) == "Acts";
    assert t[..4] == a[..4] == "Acts";
    assert t[5] == '1' && t[6] == '0';
    assert AllDigits(t[5..7]);
    assert t[4] == ' ' && t[7] == ':' && t[8] == '3';
    ScriptureAtStart(t, 40, 7);
  }

  /** An "i" that is not at the start of a word never starts the Roman-numeral pattern. */
  lemma NoRomanWithoutWordStart(t: string)
    requires forall m | 0 <= m < |t| :: (t[m] == 'i' || t[m] == 'I') ==> !IsBoundary(t, m)
    ensures forall i | 0 <= i <= |t| :: !RomanPatternAt(t, i)
  {
    forall i | 0 <= i <= |t| ensures !RomanPatternAt(t, i) {
      if IsBoundary(t, i) {
        forall k | 1 <= k <= 3 ensures !RomanRun(t, i, k) {
          if i + k <= |t| {
            assert !(t[i] == 'i' || t[i] == 'I');
          }
        }
      }
    }
  }

  lemma GiftsIsNotScripture()
    ensures !LooksLikeScripture("GIFTS")
  {
    var t := "GIFTS";
    CountCharAbsent(t, ':');
    NoDigitsNoBook(t);
    NoRomanWithoutWordStart(t);
  }

  /**
    Text made only of letters and spaces, in which no word starts with the
    letter i, is not scripture: it has no colon and no digit, and the
    Roman-numeral pattern needs an "I" at the start of a word.
  */
  lemma PlainWordsAreNotScripture(t: string)
    requires forall m | 0 <= m < |t| :: IsAlpha(t[m]) || t[m] == ' '
    requires forall m | 0 <= m < |t| :: (t[m] == 'i' || t[m] == 'I') ==> m > 0 && IsAlpha(t[m - 1])
    ensures !LooksLikeScripture(t)
  {
    assert ':' !in t;
    CountCharAbsent(t, ':');
    NoDigitsNoBook(t);
    NoRomanWithoutWordStart(t);
  }

  lemma ResurrectionGraceIsNotScripture()
    ensures !LooksLikeScripture("Resurrection" + " Grace")
  {
    var a, b := "Resurrection", " Grace";
    var t := a + b;
    assert forall m | 0 <= m < |a| :: IsAlpha(a[m]);
    assert forall m | 0 <= m < |a| :: (a[m] == 'i' || a[m] == 'I') ==> m == 9;
    assert forall m | 0 <= m < |b| :: (IsAlpha(b[m]) || b[m] == ' ') && b[m] != 'i' && b[m] != 'I';
    assert forall m | 0 <= m < |t| :: t[m] == if m < |a| then a[m] else b[m - |a|];
    PlainWordsAreNotScripture(t);
  }

  // ---------------------------------------------------------------------
  // contains_scripture
  // ---------------------------------------------------------------------

  /** Number of names in `SCRIPTURE_BOOKS`. */
  const BookNameCount := 89

  /** Entry `k` of `SCRIPTURE_BOOKS`: the books, with numbered and Roman-numbered forms and some deuterocanonical names. */
  function ScriptureBook(k: nat): string
    requires k < 89
  {
    if k < 10 then BookRow0(k)
    else if k < 20 then BookRow1(k - 10)
    else if k < 30 then BookRow2(k - 20)
    else if k < 40 then BookRow3(k - 30)
    else if k < 50 then BookRow4(k - 40)
    else if k < 60 then BookRow5(k - 50)
    else if k < 70 then BookRow6(k - 60)
    else if k < 80 then BookRow7(k - 70)
    else BookRow8(k - 80)
  }

  function BookRow0(k: nat): string
    requires k < 10
  {
    if k == 0 then "Genesis"
    else if k == 1 then "Exodus"
    else if k == 2 then "Leviticus"
    else if k == 3 then "Numbers"
    else if k == 4 then "Deuteronomy"
    else if k == 5 then "Joshua"
    else if k == 6 then "Judges"
    else if k == 7 then "Ruth"
    else if k == 8 then "1 Samuel"
    else "2 Samuel"
  }

  function BookRow1(k: nat): string
    requires k < 10
  {
    if k == 0 then "I Samuel"
    else if k == 1 then "II Samuel"
    else if k == 2 then "1 Kings"
    else if k == 3 then "2 Kings"
    else if k == 4 then "I Kings"
    else if k == 5 then "II Kings"
    else if k == 6 then "1 Chronicles"
    else if k == 7 then "2 Chronicles"
    else if k == 8 then "I Chronicles"
    else "II Chronicles"
  }

  function BookRow2(k: nat): string
    requires k < 10
  {
    if k == 0 then "Ezra"
    else if k == 1 then "Nehemiah"
    else if k == 2 then "Esther"
    else if k == 3 then "Job"
    else if k == 4 then "Psalm"
    else if k == 5 then "Psalms"
    else if k == 6 then "Proverbs"
    else if k == 7 then "Ecclesiastes"
    else if k == 8 then "Song of Solomon"
    else "Song of Songs"
  }

  function BookRow3(k: nat): string
    requires k < 10
  {
    if k == 0 then "Canticle"
    else if k == 1 then "Isaiah"
    else if k == 2 then "Jeremiah"
    else if k == 3 then "Lamentations"
    else if k == 4 then "Ezekiel"
    else if k == 5 then "Daniel"
    else if k == 6 then "Hosea"
    else if k == 7 then "Joel"
    else if k == 8 then "Amos"
    else "Obadiah"
  }

  function BookRow4(k: nat): string
    requires k < 10
  {
    if k == 0 then "Jonah"
    else if k == 1 then "Micah"
    else if k == 2 then "Nahum"
    else if k == 3 then "Habakkuk"
    else if k == 4 then "Zephaniah"
    else if k == 5 then "Haggai"
    else if k == 6 then "Zechariah"
    else if k == 7 then "Malachi"
    else if k == 8 then "Matthew"
    else "Mark"
  }

  function BookRow5(k: nat): string
    requires k < 10
  {
    if k == 0 then "Luke"
    else if k == 1 then "John"
    else if k == 2 then "Acts"
    else if k == 3 then "Romans"
    else if k == 4 then "1 Corinthians"
    else if k == 5 then "2 Corinthians"
    else if k == 6 then "I Corinthians"
    else if k == 7 then "II Corinthians"
    else if k == 8 then "Galatians"
    else "Ephesians"
  }

  function BookRow6(k: nat): string
    requires k < 10
  {
    if k == 0 then "Philippians"
    else if k == 1 then "Colossians"
    else if k == 2 then "1 Thessalonians"
    else if k == 3 then "2 Thessalonians"
    else if k == 4 then "I Thessalonians"
    else if k == 5 then "II Thessalonians"
    else if k == 6 then "1 Timothy"
    else if k == 7 then "2 Timothy"
    else if k == 8 then "I Timothy"
    else "II Timothy"
  }

  function BookRow7(k: nat): string
    requires k < 10
  {
    if k == 0 then "Titus"
    else if k == 1 then "Philemon"
    else if k == 2 then "Hebrews"
    else if k == 3 then "James"
    else if k == 4 then "1 Peter"
    else if k == 5 then "2 Peter"
    else if k == 6 then "I Peter"
    else if k == 7 then "II Peter"
    else if k == 8 then "1 John"
    else "2 John"
  }

  function BookRow8(k: nat): string
    requires k < 9
  {
    if k == 0 then "3 John"
    else if k == 1 then "I John"
    else if k == 2 then "II John"
    else if k == 3 then "III John"
    else if k == 4 then "Jude"
    else if k == 5 then "Revelation"
    else if k == 6 then "Sirach"
    else if k == 7 then "Wisdom"
    else "Baruch"
  }

  /** `\b(name)\b` at `i`, the name compared without regard to case. */
  predicate WholeWordAt(t: string, w: string, i: nat) {
    FoldedAt(t, w, i) && IsBoundary(t, i) && IsBoundary(t, i + |w|)
  }

  /** Some listed name from the `k`-th on occurs as a whole word at `i`. */
  predicate NameFrom(t: string, i: nat, k: nat)
    decreases BookNameCount - k
  {
    k < BookNameCount && (WholeWordAt(t, ScriptureBook(k), i) || NameFrom(t, i, k + 1))
  }

  /** Some listed name occurs as a whole word at `i` or later. */
  predicate BookFrom(t: string, i: nat)
    decreases |t| - i
  {
    i <= |t| && (NameFrom(t, i, 0) || BookFrom(t, i + 1))
  }

  /**
    `contains_scripture(text)`: the regex search, position by position and
    name by name; ContainsScriptureIff states it as one existential.
  */
  predicate ContainsScripture(text: string) {
    text != [] && BookFrom(text, 0)
  }

  /** Some listed name occurs as a whole word somewhere in `text`. */
  predicate SomeBookAt(text: string) {
    exists i, k | 0 <= i <= |text| && 0 <= k < BookNameCount :: WholeWordAt(text, ScriptureBook(k), i)
  }

  /** The search finds a name exactly when one occurs. */
  lemma ContainsScriptureIff(text: string)
    ensures ContainsScripture(text) <==> text != [] && SomeBookAt(text)
  {
    if BookFrom(text, 0) {
      var i, k := BookFromWitness(text, 0);
    }
    if SomeBookAt(text) {
      var i, k :| 0 <= i <= |text| && 0 <= k < BookNameCount && WholeWordAt(text, ScriptureBook(k), i);
      NameFromOf(text, i, 0, k);
      BookFromOf(text, 0, i);
    }
  }

  lemma {:induction false} NameFromOf(t: string, i: nat, k: nat, m: nat)
    requires k <= m < BookNameCount && WholeWordAt(t, ScriptureBook(m), i)
    ensures NameFrom(t, i, k)
    decreases m - k
  {
    if k < m {
      NameFromOf(t, i, k + 1, m);
    }
  }

  lemma {:induction false} BookFromOf(t: string, i: nat, j: nat)
    requires i <= j <= |t| && NameFrom(t, j, 0)
    ensures BookFrom(t, i)
    decreases j - i
  {
    if i < j {
      BookFromOf(t, i + 1, j);
    }
  }

  lemma {:induction false} NameFromWitness(t: string, i: nat, k: nat) returns (m: nat)
    requires NameFrom(t, i, k)
    ensures k <= m < BookNameCount && WholeWordAt(t, ScriptureBook(m), i)
    decreases BookNameCount - k
  {
    if WholeWordAt(t, ScriptureBook(k), i) {
      m := k;
    } else {
      m := NameFromWitness(t, i, k + 1);
    }
  }

  lemma {:induction false} BookFromWitness(t: string, i: nat) returns (j: nat, m: nat)
    requires BookFrom(t, i)
    ensures i <= j <= |t| && m < BookNameCount && WholeWordAt(t, ScriptureBook(m), j)
    decreases |t| - i
  {
    if NameFrom(t, i, 0) {
      j := i;
      m := NameFromWitness(t, i, 0);
    } else {
      j, m := BookFromWitness(t, i + 1);
    }
  }

  /** Whole-word occurrence of a listed name is what makes text contain scripture. */
  lemma ContainsScriptureAt(text: string, k: nat, i: nat)
    requires k < BookNameCount && i <= |text|
    requires WholeWordAt(text, ScriptureBook(k), i)
    ensures ContainsScripture(text)
  {
    BookNonEmpty(k);
    NameFromOf(text, i, 0, k);
    BookFromOf(text, 0, i);
  }

  lemma BookNonEmpty(k: nat)
    requires k < BookNameCount
    ensures ScriptureBook(k) != []
  {
  }

  /** The test is blind to case. */
  lemma ContainsScriptureIgnoresCase(t: string)
    ensures ContainsScripture(Lower(t)) == ContainsScripture(t)
  {
    BookFromLower(t, 0);
  }

  lemma {:induction false} NameFromLower(t: string, i: nat, k: nat)
    requires i <= |t|
    ensures NameFrom(Lower(t), i, k) == NameFrom(t, i, k)
    decreases BookNameCount - k
  {
    if k < BookNameCount {
      FoldedAtLower(t, ScriptureBook(k), i);
      BoundaryOfLower(t, i);
      if i + |ScriptureBook(k)| <= |t| {
        BoundaryOfLower(t, i + |ScriptureBook(k)|);
      }
      NameFromLower(t, i, k + 1);
    }
  }

  lemma {:induction false} BookFromLower(t: string, i: nat)
    ensures BookFrom(Lower(t), i) == BookFrom(t, i)
    decreases |t| - i
  {
    if i <= |t| {
      NameFromLower(t, i, 0);
      BookFromLower(t, i + 1);
    }
  }

  /** "Wisdom" is on the list, so a reading from it is recognised in any case. */
  lemma WisdomIsScripture()
    ensures ContainsScripture("wisdom 7:1")
  {
    var t := "wisdom 7:1";
    assert ScriptureBook(87) == "Wisdom";
    assert t[0..6] == "wisdom";
    ContainsScriptureAt(t, 87, 0);
  }

  /** "Canticle" is on the list too. */
  lemma CanticleIsScripture()
    ensures ContainsScripture("Canticle 2:8")
  {
    var t := "Canticle 2:8";
    assert ScriptureBook(30) == "Canticle";
    assert t[0..8] == "Canticle";
    ContainsScriptureAt(t, 30, 0);
  }

  /** A name glued to more letters is not a whole word: "Johnson" does not contain "John". */
  lemma GluedNameIsNotWhole()
    ensures !WholeWordAt("Johnson", "John", 0)
  {
    assert !IsBoundary("Johnson", 4);
  }
  // ---------------------------------------------------------------------
  // looks_like_occasion
  // ---------------------------------------------------------------------

  /** A word of a pattern; a '.' in it stands for any character but a newline. */
  type PatternWord = w: string | w != [] witness "a"

  /** What a pattern demands after its last word. */
  datatype Tail =
    | NoTail      // nothing
    | Digit       // `\s*\d`
    | LetterAToC  // `\s*[abc]`
    | Spaces      // `\s+`

  /**
    One alternative of an occasion pattern: optionally `\b`, then its words
    separated by `\s+`, then its tail. A pattern with a group of
    alternatives, such as `\bsunday\s+(of|after|in)\s+`, is one rule per
    alternative.
  */
  datatype OccasionRule = OccasionRule(atWordStart: bool, words: Phrase, tail: Tail)

  /** The words of a rule: at least one. */
  type Phrase = ws: seq<PatternWord> | ws != [] witness ["a"]

  /** Number of rules: the alternatives of the patterns, spelled out one by one. */
  const RuleCount := 52

  /** Rule `n` of the occasion patterns, in the order of the list. */
  function OccasionRuleAt(n: nat): OccasionRule
    requires n < RuleCount
  {
    if n < 10 then RuleRow0(n)
    else if n < 20 then RuleRow1(n - 10)
    else if n < 30 then RuleRow2(n - 20)
    else if n < 40 then RuleRow3(n - 30)
    else if n < 50 then RuleRow4(n - 40)
    else RuleRow5(n - 50)
  }

  function RuleRow0(n: nat): OccasionRule
    requires n < 10
  {
    if n == 0 then OccasionRule(false, ["year"], LetterAToC)
    else if n == 1 then OccasionRule(true, ["first", "sunday"], NoTail)
    else if n == 2 then OccasionRule(true, ["second", "sunday"], NoTail)
    else if n == 3 then OccasionRule(true, ["third", "sunday"], NoTail)
    else if n == 4 then OccasionRule(true, ["fourth", "sunday"], NoTail)
    else if n == 5 then OccasionRule(true, ["fifth", "sunday"], NoTail)
    else if n == 6 then OccasionRule(true, ["sixth", "sunday"], NoTail)
    else if n == 7 then OccasionRule(true, ["seventh", "sunday"], NoTail)
    else if n == 8 then OccasionRule(true, ["eighth", "sunday"], NoTail)
    else OccasionRule(true, ["ninth", "sunday"], NoTail)
  }

  function RuleRow1(n: nat): OccasionRule
    requires n < 10
  {
    if n == 0 then OccasionRule(true, ["tenth", "sunday"], NoTail)
    else if n == 1 then OccasionRule(true, ["eleventh", "sunday"], NoTail)
    else if n == 2 then OccasionRule(true, ["twelfth", "sunday"], NoTail)
    else if n == 3 then OccasionRule(true, ["thirteenth", "sunday"], NoTail)
    else if n == 4 then OccasionRule(true, ["fourteenth", "sunday"], NoTail)
    else if n == 5 then OccasionRule(true, ["fifteenth", "sunday"], NoTail)
    else if n == 6 then OccasionRule(true, ["sixteenth", "sunday"], NoTail)
    else if n == 7 then OccasionRule(true, ["seventeenth", "sunday"], NoTail)
    else if n == 8 then OccasionRule(true, ["eighteenth", "sunday"], NoTail)
    else OccasionRule(true, ["nineteenth", "sunday"], NoTail)
  }

  function RuleRow2(n: nat): OccasionRule
    requires n < 10
  {
    if n == 0 then OccasionRule(true, ["twentieth", "sunday"], NoTail)
    else if n == 1 then OccasionRule(true, ["twenty.first", "sunday"], NoTail)
    else if n == 2 then OccasionRule(true, ["twenty.second", "sunday"], NoTail)
    else if n == 3 then OccasionRule(true, ["twenty.third", "sunday"], NoTail)
    else if n == 4 then OccasionRule(true, ["twenty.fourth", "sunday"], NoTail)
    else if n == 5 then OccasionRule(true, ["twenty.fifth", "sunday"], NoTail)
    else if n == 6 then OccasionRule(true, ["twenty.sixth", "sunday"], NoTail)
    else if n == 7 then OccasionRule(true, ["twenty.seventh", "sunday"], NoTail)
    else if n == 8 then OccasionRule(true, ["last", "sunday"], NoTail)
    else OccasionRule(true, ["sunday", "of"], Spaces)
  }

  function RuleRow3(n: nat): OccasionRule
    requires n < 10
  {
    if n == 0 then OccasionRule(true, ["sunday", "after"], Spaces)
    else if n == 1 then OccasionRule(true, ["sunday", "in"], Spaces)
    else if n == 2 then OccasionRule(true, ["advent"], Digit)
    else if n == 3 then OccasionRule(true, ["lent"], Digit)
    else if n == 4 then OccasionRule(true, ["easter"], Digit)
    else if n == 5 then OccasionRule(true, ["proper"], Digit)
    else if n == 6 then OccasionRule(true, ["liturgy", "of", "the", "palms"], NoTail)
    else if n == 7 then OccasionRule(true, ["liturgy", "of", "the", "word"], NoTail)
    else if n == 8 then OccasionRule(true, ["easter", "day"], NoTail)
    else OccasionRule(true, ["christmas", "day"], NoTail)
  }

  function RuleRow4(n: nat): OccasionRule
    requires n < 10
  {
    if n == 0 then OccasionRule(true, ["palm", "sunday"], NoTail)
    else if n == 1 then OccasionRule(true, ["ash", "wednesday"], NoTail)
    else if n == 2 then OccasionRule(true, ["good", "friday"], NoTail)
    else if n == 3 then OccasionRule(true, ["trinity", "sunday"], NoTail)
    else if n == 4 then OccasionRule(true, ["pentecost"], NoTail)
    else if n == 5 then OccasionRule(true, ["the", "epiphany"], NoTail)
    else if n == 6 then OccasionRule(true, ["christ", "the", "king"], NoTail)
    else if n == 7 then OccasionRule(true, ["all", "saints"], NoTail)
    else if n == 8 then OccasionRule(true, ["baptism", "of", "our", "lord"], NoTail)
    else OccasionRule(true, ["baptism", "of", "lord"], NoTail)
  }

  function RuleRow5(n: nat): OccasionRule
    requires n < 2
  {
    if n == 0 then OccasionRule(true, ["transfiguration"], NoTail)
    else OccasionRule(true, ["holy", "name"], NoTail)
  }

  /** Pattern character `p` accepts text character `c`. */
  predicate CharMatches(p: char, c: char) {
    if p == '.' then c != '\n' else c == p
  }

  /** The pattern word `w` matches at `i`. */
  predicate WordAt(t: string, w: string, i: nat) {
    i + |w| <= |t| && forall k | 0 <= k < |w| :: CharMatches(w[k], t[i + k])
  }

  /**
    Where the words matched from `i` end, each after the first preceded by
    at least one whitespace character. Every word starts with a letter, so
    the greedy whitespace run never has to give anything back.
  */
  function PhraseEnd(t: string, i: nat, words: seq<PatternWord>): (r: Option<nat>)
    requires i <= |t|
    ensures r.Some? ==> i <= r.value <= |t|
    ensures r.Some? && words != [] ==> i + |words[0]| <= r.value
    decreases |words|
  {
    if words == [] then Some(i)
    else if !WordAt(t, words[0], i) then None
    else if |words| == 1 then Some(i + |words[0]|)
    else
      var j := i + |words[0]|;
      var k := SkipSpaces(t, j);
      if k == j then None else PhraseEnd(t, k, words[1..])
  }

  predicate TailAt(t: string, e: nat, tail: Tail)
    requires e <= |t|
  {
    match tail
    case NoTail => true
    case Digit => SkipSpaces(t, e) < |t| && IsDigit(t[SkipSpaces(t, e)])
    case LetterAToC => SkipSpaces(t, e) < |t| && t[SkipSpaces(t, e)] in "abc"
    case Spaces => e < |t| && IsSpace(t[e])
  }

  /** The rule matches at `i`. */
  predicate RuleAt(t: string, i: nat, rule: OccasionRule) {
    i <= |t| && (rule.atWordStart ==> IsBoundary(t, i)) &&
    var e := PhraseEnd(t, i, rule.words);
    e.Some? && TailAt(t, e.value, rule.tail)
  }

  /** Some occasion pattern matches somewhere in `l`. */
  predicate MatchesOccasion(l: string) {
    exists n, i | 0 <= n < RuleCount && 0 <= i <= |l| :: RuleAt(l, i, OccasionRuleAt(n))
  }

  /**
    `looks_like_occasion(text)`: not for empty text nor for upper-case text
    longer than ten characters; otherwise some pattern matches the
    lower-cased text.
  */
  predicate LooksLikeOccasion(text: string) {
    text != [] && !(IsUpperText(text) && |text| > 10) && MatchesOccasion(Lower(text))
  }

  /** The two early exits. */
  lemma OccasionGuards(text: string)
    ensures text == [] ==> !LooksLikeOccasion(text)
    ensures IsUpperText(text) && |text| > 10 ==> !LooksLikeOccasion(text)
    ensures text != [] && !IsUpperText(text) ==> (LooksLikeOccasion(text) <==> MatchesOccasion(Lower(text)))
  {
  }

  /** The patterns only look at the lower-cased text, so case never matters below the guard. */
  lemma OccasionOfLower(text: string)
    ensures LooksLikeOccasion(Lower(text)) == (text != [] && MatchesOccasion(Lower(text)))
  {
    LowerIdempotent(text);
    assert !HasUpper(Lower(text));
  }

  /** A match stays a match when more text follows. */
  lemma OccasionExtends(l: string, s: string)
    requires MatchesOccasion(l)
    ensures MatchesOccasion(l + s)
  {
    var n, i :| 0 <= n < RuleCount && 0 <= i <= |l| && RuleAt(l, i, OccasionRuleAt(n));
    RuleAtExtends(l, s, i, OccasionRuleAt(n));
  }

  lemma RuleAtExtends(l: string, s: string, i: nat, rule: OccasionRule)
    requires RuleAt(l, i, rule)
    ensures RuleAt(l + s, i, rule)
  {
    var e := PhraseEnd(l, i, rule.words).value;
    PhraseEndExtends(l, s, i, rule.words);
    if rule.atWordStart {
      assert i < |l|;
      assert (l + s)[i] == l[i];
      if i > 0 { assert (l + s)[i - 1] == l[i - 1]; }
    }
    TailAtExtends(l, s, e, rule.tail);
  }

  lemma {:induction false} PhraseEndExtends(l: string, s: string, i: nat, words: seq<PatternWord>)
    requires i <= |l| && PhraseEnd(l, i, words).Some?
    ensures PhraseEnd(l + s, i, words) == PhraseEnd(l, i, words)
    decreases |words|
  {
    if words != [] {
      assert WordAt(l + s, words[0], i) by {
        forall k | 0 <= k < |words[0]| ensures CharMatches(words[0][k], (l + s)[i + k]) { assert (l + s)[i + k] == l[i + k]; }
      }
      if |words| > 1 {
        var j := i + |words[0]|;
        var k := SkipSpaces(l, j);
        PhraseEndExtends(l, s, k, words[1..]);
        assert k < |l| by {
          var e := PhraseEnd(l, k, words[1..]).value;
          assert k + |words[1]| <= e;
        }
        SkipSpacesExtends(l, s, j);
      }
    }
  }

  lemma TailAtExtends(l: string, s: string, e: nat, tail: Tail)
    requires e <= |l| && TailAt(l, e, tail)
    ensures TailAt(l + s, e, tail)
  {
    if tail.Digit? || tail.LetterAToC? {
      SkipSpacesExtends(l, s, e);
    }
  }

  /** "Proper 5" is an occasion (the `proper\s*\d` pattern, rule 35). */
  lemma ProperIsOccasion()
    ensures LooksLikeOccasion("Proper 5")
  {
    var t := "Proper 5";
    assert !IsUpperText(t) by { assert IsLowerChar(t[1]); }
    var l := Lower(t);
    assert l == "proper 5";
    assert OccasionRuleAt(35) == OccasionRule(true, ["proper"], Digit);
    assert SkipSpaces(l, 6) == 7;
    assert RuleAt(l, 0, OccasionRuleAt(35));
  }

  /** "Palm Sunday" is an occasion (rule 40). */
  lemma PalmSundayIsOccasion()
    ensures LooksLikeOccasion("Palm Sunday")
  {
    var t := "Palm Sunday";
    assert !IsUpperText(t) by { assert IsLowerChar(t[1]); }
    var l := Lower(t);
    assert l == "palm sunday";
    assert OccasionRuleAt(40) == OccasionRule(true, ["palm", "sunday"], NoTail);
    assert SkipSpaces(l, 4) == 5;
    assert PhraseEnd(l, 5, ["sunday"]) == Some(11);
    assert RuleAt(l, 0, OccasionRuleAt(40));
  }

  /** "Year A" is an occasion, anywhere in the text (rule 0 has no `\b`). */
  lemma YearIsOccasion()
    ensures LooksLikeOccasion("Year A")
  {
    var t := "Year A";
    assert !IsUpperText(t) by { assert IsLowerChar(t[1]); }
    var l := Lower(t);
    assert l == "year a";
    assert SkipSpaces(l, 4) == 5;
    assert RuleAt(l, 0, OccasionRuleAt(0));
  }

  /** Upper-case text longer than ten characters is never an occasion. */
  lemma ShoutedOccasionIsNot()
    ensures !LooksLikeOccasion("CHRISTMAS DAY")
  {
    var t := "CHRISTMAS DAY";
    assert HasUpper(t) by { assert IsUpperChar(t[0]); }
    assert NoLower(t) by { forall k | 0 <= k < |t| ensures !IsLowerChar(t[k]) { } }
    OccasionGuards(t);
  }
}
