/**
  The three older title-casing routines called `title_case_smart`:

  * fix_meditation_titles.py, which only touches an all-capitals title,
    recognises a small word by its core (the word without surrounding
    quotes and punctuation) and capitalises through `capitalize_word`
    (the first letter, wherever it is, becomes upper case);
  * the website updater (v4, and its v3 backup, which is the same code),
    gated the same way but capitalising with `str.capitalize` and
    testing the whole lower-cased word against the small words;
  * the original website updater, which has no gate at all and whose
    small-word set lacks `as`.
*/
module SmartCase {
  import opened Text

  /** Which of the three copies of `title_case_smart` is meant. */
  datatype Version = MeditationTitles | Website | WebsiteOriginal

  /** The 17 small words kept in lower case after the first word. */
  predicate IsSmallWord(w: string) {
    w == "a" || w == "an" || w == "the" || w == "and" || w == "but" || w == "or"
    || w == "for" || w == "nor" || w == "on" || w == "at" || w == "to" || w == "from"
    || w == "by" || w == "in" || w == "of" || w == "with" || w == "as"
  }

  /** The small words of a version: the original updater's set has no `as`. */
  predicate IsSmallFor(v: Version, w: string) {
    IsSmallWord(w) && (v == WebsiteOriginal ==> w != "as")
  }

  /** Only the original updater re-cases text that is not all capitals. */
  predicate Gated(v: Version) {
    v != WebsiteOriginal
  }

  // ---------------------------------------------------------------------
  // capitalize_word
  // ---------------------------------------------------------------------

  /** The index of the first letter at or after `i`, or `|w|`. */
  function FirstLetter(w: string, i: nat): (a: nat)
    requires i <= |w|
    ensures i <= a <= |w|
    ensures forall k | i <= k < a :: !IsAlpha(w[k])
    ensures a < |w| ==> IsAlpha(w[a])
    decreases |w| - i
  {
    if i == |w| || IsAlpha(w[i]) then i else FirstLetter(w, i + 1)
  }

  /**
    `capitalize_word`: what comes before the first letter is kept, the
    first letter is upper-cased and the rest lower-cased; a word without
    letters is lower-cased as a whole.
  */
  function CapitalizedWord(word: string): (r: string)
    ensures |r| == |word|
    ensures var a := FirstLetter(word, 0);
      forall k | 0 <= k < |word| ::
        r[k] == if k < a then word[k] else if k == a then ToUpperChar(word[k]) else ToLowerChar(word[k])
  {
    var a := FirstLetter(word, 0);
    if a == |word| then
      assert forall k | 0 <= k < |word| :: ToLowerChar(word[k]) == word[k];
      Lower(word)
    else word[..a] + [ToUpperChar(word[a])] + Lower(word[a + 1..])
  }

  /** A word without letters comes back as it was. */
  lemma NoLetterWordKept(word: string)
    requires forall k | 0 <= k < |word| :: !IsAlpha(word[k])
    ensures CapitalizedWord(word) == word
  {
  }

  /** The loop of `capitalize_word`: scan for the first letter and rebuild the word there. */
  method CapitalizeWord(word: string) returns (r: string)
    ensures r == CapitalizedWord(word)
  {
    if word == [] {
      return word;
    }
    for i := 0 to |word|
      invariant forall k | 0 <= k < i :: !IsAlpha(word[k])
    {
      if IsAlpha(word[i]) {
        assert FirstLetter(word, 0) == i by {
          FirstLetterIs(word, 0, i);
        }
        return word[..i] + [ToUpperChar(word[i])] + Lower(word[i + 1..]);
      }
    }
    r := Lower(word);
    assert FirstLetter(word, 0) == |word| by {
      FirstLetterIs(word, 0, |word|);
    }
  }

  lemma {:induction false} FirstLetterIs(w: string, i: nat, a: nat)
    requires i <= a <= |w|
    requires forall k | i <= k < a :: !IsAlpha(w[k])
    requires a < |w| ==> IsAlpha(w[a])
    ensures FirstLetter(w, i) == a
    decreases a - i
  {
    if i < a {
      FirstLetterIs(w, i + 1, a);
    }
  }

  // ---------------------------------------------------------------------
  // The core of a word
  // ---------------------------------------------------------------------

  /** The characters `word.strip('"\'.,;:!?()[]')` removes. */
  predicate IsWrapChar(c: char) {
    c == '"' || c == '\'' || c == '.' || c == ',' || c == ';' || c == ':'
    || c == '!' || c == '?' || c == '(' || c == ')' || c == '[' || c == ']'
  }

  /** The end of the run of wrapping characters starting at `i`. */
  function WrapEnd(w: string, i: nat): (j: nat)
    requires i <= |w|
    ensures i <= j <= |w|
    ensures forall k | i <= k < j :: IsWrapChar(w[k])
    ensures j < |w| ==> !IsWrapChar(w[j])
    decreases |w| - i
  {
    if i < |w| && IsWrapChar(w[i]) then WrapEnd(w, i + 1) else i
  }

  /** The start of the run of wrapping characters that ends at `j`, not going below `lo`. */
  function WrapStart(w: string, lo: nat, j: nat): (s: nat)
    requires lo <= j <= |w|
    ensures lo <= s <= j
    ensures forall k | s <= k < j :: IsWrapChar(w[k])
    ensures s > lo ==> !IsWrapChar(w[s - 1])
    decreases j
  {
    if j > lo && IsWrapChar(w[j - 1]) then WrapStart(w, lo, j - 1) else j
  }

  /** Every character of `s` is a wrapping character. */
  predicate AllWrap(s: string) {
    forall k | 0 <= k < |s| :: IsWrapChar(s[k])
  }

  /**
    `word.strip('"\'.,;:!?()[]')`: the word without its leading and
    trailing wrapping characters; nothing is left of a word made of them.
  */
  function CoreOf(word: string): (core: string)
    ensures |core| <= |word|
    ensures core == [] || (!IsWrapChar(core[0]) && !IsWrapChar(core[|core| - 1]))
    ensures core == [] <==> AllWrap(word)
  {
    var a := WrapEnd(word, 0);
    var b := WrapStart(word, a, |word|);
    word[a..b]
  }

  /** The core of a word wrapped in wrapping characters is what they wrap. */
  lemma CoreOfWrapped(l: string, c: string, t: string)
    requires AllWrap(l) && AllWrap(t)
    requires c != [] && !IsWrapChar(c[0]) && !IsWrapChar(c[|c| - 1])
    ensures CoreOf(l + c + t) == c
  {
    var w := l + c + t;
    assert WrapEnd(w, 0) == |l| by {
      WrapEndIs(w, 0, |l|);
    }
    assert WrapStart(w, |l|, |w|) == |l| + |c| by {
      WrapStartIs(w, |l|, |w|, |l| + |c|);
    }
    assert w[|l|..|l| + |c|] == c;
  }

  lemma {:induction false} WrapEndIs(w: string, i: nat, j: nat)
    requires i <= j <= |w|
    requires forall k | i <= k < j :: IsWrapChar(w[k])
    requires j < |w| ==> !IsWrapChar(w[j])
    ensures WrapEnd(w, i) == j
    decreases j - i
  {
    if i < j {
      WrapEndIs(w, i + 1, j);
    }
  }

  lemma {:induction false} WrapStartIs(w: string, lo: nat, j: nat, s: nat)
    requires lo <= s <= j <= |w|
    requires forall k | s <= k < j :: IsWrapChar(w[k])
    requires s > lo ==> !IsWrapChar(w[s - 1])
    ensures WrapStart(w, lo, j) == s
    decreases j - s
  {
    if s < j {
      WrapStartIs(w, lo, j - 1, s);
    }
  }

  /** Lower-casing never turns a character into or out of a wrapping character. */
  lemma WrapCharLower(c: char)
    ensures IsWrapChar(ToLowerChar(c)) <==> IsWrapChar(c)
  {
  }

  lemma {:induction false} WrapEndLower(w: string, i: nat)
    requires i <= |w|
    ensures WrapEnd(Lower(w), i) == WrapEnd(w, i)
    decreases |w| - i
  {
    if i < |w| {
      WrapCharLower(w[i]);
      WrapEndLower(w, i + 1);
    }
  }

  lemma {:induction false} WrapStartLower(w: string, lo: nat, j: nat)
    requires lo <= j <= |w|
    ensures WrapStart(Lower(w), lo, j) == WrapStart(w, lo, j)
    decreases j
  {
    if j > lo {
      WrapCharLower(w[j - 1]);
      WrapStartLower(w, lo, j - 1);
    }
  }

  /** Taking the core and lower-casing commute. */
  lemma CoreOfLower(w: string)
    ensures Lower(CoreOf(w)) == CoreOf(Lower(w))
  {
    var a := WrapEnd(w, 0);
    var b := WrapStart(w, a, |w|);
    WrapEndLower(w, 0);
    WrapStartLower(w, a, |w|);
    assert CoreOf(w) == w[a..b];
    assert CoreOf(Lower(w)) == Lower(w)[a..b];
    LowerSlice(w, a, b);
  }

  lemma LowerSlice(w: string, a: nat, b: nat)
    requires a <= b <= |w|
    ensures Lower(w[a..b]) == Lower(w)[a..b]
  {
  }

  /** Words with the same lower-case form have cores with the same lower-case form. */
  lemma CoreFolds(x: string, y: string)
    requires Lower(x) == Lower(y)
    ensures Lower(CoreOf(x)) == Lower(CoreOf(y))
  {
    CoreOfLower(x);
    CoreOfLower(y);
  }

  // ---------------------------------------------------------------------
  // One word
  // ---------------------------------------------------------------------

  /** How a version capitalises a word: `capitalize_word` or `str.capitalize`. */
  function Capitalized(v: Version, word: string): (r: string)
    ensures |r| == |word| && Lower(r) == Lower(word)
  {
    if v == MeditationTitles then
      var r := CapitalizedWord(word);
      assert forall k | 0 <= k < |word| :: ToLowerChar(r[k]) == ToLowerChar(word[k]);
      r
    else
      var r := Capitalize(word);
      assert forall k | 0 <= k < |word| :: ToLowerChar(r[k]) == ToLowerChar(word[k]);
      r
  }

  /** The text a version tests against its small words: the lower-cased core or the lower-cased word. */
  function SmallKey(v: Version, word: string): string {
    if v == MeditationTitles then Lower(CoreOf(word)) else Lower(word)
  }

  /** Whether the word at position `i` is left in lower case. */
  predicate StaysLower(v: Version, word: string, i: nat) {
    i > 0 && IsSmallFor(v, SmallKey(v, word))
  }

  /**
    The body of the loop for word `i`: a small word after the first is
    lower-cased, every other word capitalised. Only letter case changes.
  */
  function CaseWordAt(v: Version, word: string, i: nat): (r: string)
    ensures |r| == |word| && Lower(r) == Lower(word)
    ensures i == 0 ==> r == Capitalized(v, word)
  {
    if StaysLower(v, word, i) then
      LowerIdempotent(word);
      Lower(word)
    else Capitalized(v, word)
  }

  /** The key compared with the small words depends only on the lower-case form. */
  lemma SmallKeyFolds(v: Version, x: string, y: string)
    requires Lower(x) == Lower(y)
    ensures SmallKey(v, x) == SmallKey(v, y)
  {
    if v == MeditationTitles {
      CoreFolds(x, y);
    } else {
      LowerIdempotent(x);
    }
  }

  /** Capitalising twice is capitalising once. */
  lemma CapitalizedIdempotent(v: Version, word: string)
    ensures Capitalized(v, Capitalized(v, word)) == Capitalized(v, word)
  {
    var r := Capitalized(v, word);
    if v == MeditationTitles {
      FirstLetterIs(r, 0, FirstLetter(word, 0));
    }
  }

  /** Re-casing a cased word changes nothing. */
  lemma CaseWordIdempotent(v: Version, word: string, i: nat)
    ensures CaseWordAt(v, CaseWordAt(v, word, i), i) == CaseWordAt(v, word, i)
  {
    var r := CaseWordAt(v, word, i);
    SmallKeyFolds(v, r, word);
    if StaysLower(v, word, i) {
      LowerIdempotent(word);
    } else {
      CapitalizedIdempotent(v, word);
    }
  }

  // ---------------------------------------------------------------------
  // The whole title
  // ---------------------------------------------------------------------

  /** The `result` list for the words of the title. */
  function Cased(v: Version, words: seq<string>): (r: seq<string>)
    ensures |r| == |words|
    ensures forall k | 0 <= k < |words| :: Lower(r[k]) == Lower(words[k])
  {
    seq(|words|, k requires 0 <= k < |words| => CaseWordAt(v, words[k], k))
  }

  /** `title_case_smart(text)` of the given version. */
  function TitleCaseSmartOf(v: Version, text: string): string {
    if text == [] then text
    else if Gated(v) && !IsUpperText(text) then text
    else Join(Cased(v, Split(text)), " ")
  }

  /** The method: the gate, then the `result` list filled word by word and joined. */
  method TitleCaseSmart(v: Version, text: string) returns (r: string)
    ensures r == TitleCaseSmartOf(v, text)
  {
    if text == [] {
      return text;
    }
    if Gated(v) && !IsUpperText(text) {
      return text;
    }
    var result := CaseWords(v, Split(text));
    r := Join(result, " ");
  }

  /** The loop of `title_case_smart`: the `result` list, one cased word per word. */
  method CaseWords(v: Version, words: seq<string>) returns (result: seq<string>)
    ensures result == Cased(v, words)
  {
    result := [];
    for i := 0 to |words|
      invariant result == Cased(v, words)[..i]
    {
      var token := CaseWord(v, words[i], i);
      CasedStep(v, words, i, token);
      result := result + [token];
    }
    assert Cased(v, words)[..|words|] == Cased(v, words);
  }

  /** One more cased word extends the prefix of the cased list. */
  lemma CasedStep(v: Version, words: seq<string>, i: nat, token: string)
    requires i < |words| && token == CaseWordAt(v, words[i], i)
    ensures Cased(v, words)[..i + 1] == Cased(v, words)[..i] + [token]
  {
    CasedAt(v, words, i);
    PrefixStep(Cased(v, words), i, token);
  }

  lemma CasedAt(v: Version, words: seq<string>, i: nat)
    requires i < |words|
    ensures Cased(v, words)[i] == CaseWordAt(v, words[i], i)
  {
  }

  lemma PrefixStep<T>(c: seq<T>, i: nat, x: T)
    requires i < |c| && c[i] == x
    ensures c[..i + 1] == c[..i] + [x]
  {
  }

  /** The body of the loop for word `i`. */
  method CaseWord(v: Version, word: string, i: nat) returns (token: string)
    ensures token == CaseWordAt(v, word, i)
  {
    if i == 0 {
      token := CaseFirst(v, word);
    } else if IsSmallFor(v, SmallKey(v, word)) {
      token := Lower(word);
    } else {
      token := CaseFirst(v, word);
    }
  }

  /** Capitalisation of a word as each version's loop performs it. */
  method CaseFirst(v: Version, word: string) returns (r: string)
    ensures r == Capitalized(v, word)
  {
    if v == MeditationTitles {
      r := CapitalizeWord(word);
    } else {
      r := Capitalize(word);
    }
  }

  /** Casing keeps every word a word, so the words come back out of the joined text. */
  lemma CasedWords(v: Version, words: seq<string>)
    requires forall k | 0 <= k < |words| :: IsWord(words[k])
    ensures forall k | 0 <= k < |words| :: IsWord(Cased(v, words)[k])
    ensures Split(Join(Cased(v, words), " ")) == Cased(v, words)
  {
    var c := Cased(v, words);
    forall k | 0 <= k < |words| ensures IsWord(c[k]) {
      WordByLower(c[k], words[k]);
    }
    SplitJoin(c);
  }

  /** Two strings with the same lower-case form are words together. */
  lemma WordByLower(x: string, y: string)
    requires Lower(x) == Lower(y) && IsWord(y)
    ensures IsWord(x)
  {
    assert |x| == |y|;
    forall k | 0 <= k < |x| ensures !IsSpace(x[k]) {
      assert ToLowerChar(x[k]) == ToLowerChar(y[k]);
    }
  }

  /** Casing the already cased words changes nothing. */
  lemma CasedIdempotent(v: Version, words: seq<string>)
    ensures Cased(v, Cased(v, words)) == Cased(v, words)
  {
    var c := Cased(v, words);
    forall k | 0 <= k < |words| ensures Cased(v, c)[k] == c[k] {
      CaseWordIdempotent(v, words[k], k);
    }
  }

  /**
    A gated version returns empty text, and text that is not all
    capitals, as it was.
  */
  lemma GateKeepsText(v: Version, text: string)
    requires Gated(v) && !IsUpperText(text)
    ensures TitleCaseSmartOf(v, text) == text
  {
  }

  /**
    On text it re-cases, every version puts out the cased words of the
    input joined by single spaces: the words of the output are the cased
    input words, the first capitalised, each with the input word's
    letters.
  */
  lemma TitleCaseShape(v: Version, text: string)
    requires text != [] && (Gated(v) ==> IsUpperText(text))
    ensures var r := TitleCaseSmartOf(v, text);
      var ws := Split(text);
      IsStripped(r)
      && Split(r) == Cased(v, ws)
      && |Split(r)| == |ws|
      && (forall k | 0 <= k < |ws| :: Lower(Split(r)[k]) == Lower(ws[k]))
      && (ws != [] ==> Split(r)[0] == Capitalized(v, ws[0]))
  {
    var ws := Split(text);
    SplitWords(text);
    CasedWords(v, ws);
    JoinWordsStripped(Cased(v, ws));
  }

  /** Applying `title_case_smart` twice gives the same as applying it once. */
  lemma TitleCaseSmartIdempotent(v: Version, text: string)
    ensures TitleCaseSmartOf(v, TitleCaseSmartOf(v, text)) == TitleCaseSmartOf(v, text)
  {
    var r := TitleCaseSmartOf(v, text);
    if text != [] && (Gated(v) ==> IsUpperText(text)) && r != [] && (Gated(v) ==> IsUpperText(r)) {
      var ws := Split(text);
      SplitWords(text);
      CasedWords(v, ws);
      CasedIdempotent(v, ws);
    }
  }

  // ---------------------------------------------------------------------
  // How the versions differ
  // ---------------------------------------------------------------------

  /** `capitalize_word` reaches past an opening quote... */
  lemma QuotedWordExample()
    ensures CapitalizedWord("\"GRACE") == "\"Grace"
  {
    var w := "\"GRACE";
    assert FirstLetter(w, 0) == 1 by {
      FirstLetterIs(w, 0, 1);
    }
    assert Lower(w[2..]) == "race";
  }

  /** ...and `str.capitalize` does not. */
  lemma QuotedCapitalizeExample()
    ensures Capitalize("\"GRACE") == "\"grace"
  {
    assert Lower("GRACE") == "grace";
  }

  /** A small word followed by a comma is found through its core by fix_meditation_titles.py... */
  lemma CoreExample()
    ensures CaseWordAt(MeditationTitles, "THE,", 1) == "the,"
  {
    TheCommaCore();
    SmallCoreLowered("THE,", 1);
    assert Lower("THE,") == "the,";
  }

  lemma TheCommaCore()
    ensures Lower(CoreOf("THE,")) == "the"
  {
    TheCommaCoreIs("THE,", "THE");
    LowerThe("THE");
  }

  lemma TheCommaCoreIs(w: string, c: string)
    requires w == "THE," && c == "THE"
    ensures CoreOf(w) == c
  {
    assert w == [] + c + ",";
    CoreOfWrapped([], c, ",");
  }

  lemma LowerThe(c: string)
    requires c == "THE"
    ensures Lower(c) == "the"
  {
    assert Lower(c)[0] == 't' && Lower(c)[1] == 'h' && Lower(c)[2] == 'e';
  }

  /** In fix_meditation_titles.py a later word with a small core is lower-cased in full. */
  lemma SmallCoreLowered(word: string, i: nat)
    requires i > 0 && IsSmallWord(Lower(CoreOf(word)))
    ensures CaseWordAt(MeditationTitles, word, i) == Lower(word)
  {
  }

  /** ...and not by the website updater, which tests the whole word. */
  lemma WholeWordExample()
    ensures CaseWordAt(Website, "THE,", 1) == "The,"
  {
    var w := "THE,";
    assert SmallKey(Website, w) == "the,";
    assert Capitalize(w) == "The,";
  }

  /** `as` is a small word for the later versions only. */
  lemma AsExample()
    ensures CaseWordAt(Website, "AS", 1) == "as"
    ensures CaseWordAt(WebsiteOriginal, "AS", 1) == "As"
  {
    assert Lower("AS") == "as";
    assert Capitalize("AS") == "As";
  }

  /** A gated version leaves a title that is not in capitals alone... */
  lemma GateExample()
    ensures TitleCaseSmartOf(Website, "of") == "of"
  {
    assert !IsUpperChar("of"[0]) && !IsUpperChar("of"[1]);
    assert !HasUpper("of");
  }

  /** ...which the original updater re-cases. */
  lemma UngatedExample()
    ensures TitleCaseSmartOf(WebsiteOriginal, "of") == "Of"
  {
    var w := "of";
    assert IsWord(w);
    OneWordUngated(w);
    assert Capitalize(w) == "Of";
  }

  /** The original updater capitalizes a title of one word, whatever its case. */
  lemma OneWordUngated(w: string)
    requires IsWord(w)
    ensures TitleCaseSmartOf(WebsiteOriginal, w) == Capitalize(w)
  {
    SplitWord(w);
    var c := Cased(WebsiteOriginal, [w]);
    assert |c| == 1 && c[0] == CaseWordAt(WebsiteOriginal, w, 0);
    assert Join(c, " ") == c[0];
    assert CaseWordAt(WebsiteOriginal, w, 0) == Capitalized(WebsiteOriginal, w);
  }
}
