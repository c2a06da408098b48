/**
  Scripture references in a readings line, as `parse_scripture_references`
  and `ref_sort_key` in `scripts/generate_indexes.py` read them.

  The pattern
    (\d?\s*[A-Z][a-z]+(?:\s+of\s+[A-Z][a-z]+)?)\s+([\d:,\-\s]+?)(?=\s*\d?\s*[A-Z][a-z]|$)
  is recognised by hand: every quantifier except the lazy verse group and
  the `\s+` in front of it can only succeed one way, so a match at a given
  index is found by trying the "of" phrase first, then the verse group
  growing from the end of the whitespace, then the verse group made of one
  of those whitespace characters, nearest to the verses first.
*/
module References {
  import opened Text
  import opened Scan
  import opened Books

  // ---------------------------------------------------------------------
  // The book group
  // ---------------------------------------------------------------------

  /** `[A-Z][a-z]` at `j`. */
  predicate NameStartsAt(t: string, j: nat) {
    j + 1 < |t| && IsUpperChar(t[j]) && IsLowerChar(t[j + 1])
  }

  /** `\d?\s*[A-Z][a-z]+` at `i`: where the book name ends, if it matches there. */
  function BookNameEnd(t: string, i: nat): (r: Option<nat>)
    requires i <= |t|
    ensures r.Some? ==> i + 2 <= r.value <= |t|
  {
    var d := if i < |t| && IsDigit(t[i]) then i + 1 else i;
    var j := SkipSpaces(t, d);
    if NameStartsAt(t, j) then Some(SkipLower(t, j + 1)) else None
  }

  /** `\s+of\s+[A-Z][a-z]+` at `e`: where an "of" phrase ("Song of Solomon") ends, if one follows. */
  function OfPhraseEnd(t: string, e: nat): (r: Option<nat>)
    requires e <= |t|
    ensures r.Some? ==> e < r.value <= |t|
  {
    var m := SkipSpaces(t, e);
    if m > e && OccursAt(t, "of", m) then
      var n := SkipSpaces(t, m + 2);
      if n > m + 2 && NameStartsAt(t, n) then Some(SkipLower(t, n + 1)) else None
    else None
  }

  // ---------------------------------------------------------------------
  // The verse group
  // ---------------------------------------------------------------------

  /** A character of the class `[\d:,\-\s]`. */
  predicate IsVerseChar(c: char) {
    IsDigit(c) || c == ':' || c == ',' || c == '-' || IsSpace(c)
  }

  predicate AllVerseChars(s: string) {
    forall k | 0 <= k < |s| :: IsVerseChar(s[k])
  }

  /** End of the run of verse characters that starts at `i`. */
  function SkipVerseChars(t: string, i: nat): (j: nat)
    requires i <= |t|
    ensures i <= j <= |t|
    ensures AllVerseChars(t[i..j])
    decreases |t| - i
  {
    if i < |t| && IsVerseChar(t[i]) then SkipVerseChars(t, i + 1) else i
  }

  /** The lookahead `(?=\s*\d?\s*[A-Z][a-z]|$)` at `x`: another book name, or the end. */
  predicate NextBookOrEnd(t: string, x: nat)
    requires x <= |t|
  {
    AtEnd(t, x) ||
    var s := SkipSpaces(t, x);
    if s < |t| && IsDigit(t[s]) then NameStartsAt(t, SkipSpaces(t, s + 1)) else NameStartsAt(t, s)
  }

  /** The least `y` in `[x, hi]` where the lookahead holds. */
  function FirstLookahead(t: string, x: nat, hi: nat): (r: Option<nat>)
    requires hi <= |t|
    ensures r.Some? ==> x <= r.value <= hi && NextBookOrEnd(t, r.value)
    decreases hi + 1 - x
  {
    if x > hi then None
    else if NextBookOrEnd(t, x) then Some(x)
    else FirstLookahead(t, x + 1, hi)
  }

  /** The greatest `y` in `[lo, x]` where the lookahead holds. */
  function LastLookahead(t: string, x: nat, lo: nat): (r: Option<nat>)
    requires x <= |t|
    ensures r.Some? ==> lo <= r.value <= x && NextBookOrEnd(t, r.value)
    decreases x
  {
    if x < lo then None
    else if NextBookOrEnd(t, x) then Some(x)
    else if x == 0 then None
    else LastLookahead(t, x - 1, lo)
  }

  /** Where a group starts and ends. */
  datatype Span = Span(start: nat, end: nat)

  /**
    `\s+([\d:,\-\s]+?)` followed by the lookahead, at `e`. The verse group
    first grows from the end of the whitespace; failing that, `\s+` gives
    back one character at a time and the group is that single character.
  */
  function VerseSpan(t: string, e: nat): (r: Option<Span>)
    requires e <= |t|
    ensures r.Some? ==> e < r.value.start < r.value.end <= |t|
    ensures r.Some? ==> AllVerseChars(t[r.value.start..r.value.end]) && NextBookOrEnd(t, r.value.end)
  {
    var m := SkipSpaces(t, e);
    if m == e then None
    else
      var grown := FirstLookahead(t, m + 1, SkipVerseChars(t, m));
      if grown.Some? then
        assert t[m..grown.value] == t[m..SkipVerseChars(t, m)][..grown.value - m];
        Some(Span(m, grown.value))
      else
        var single := LastLookahead(t, m, e + 2);
        if single.Some? then
          assert IsSpace(t[e..m][single.value - 1 - e]);
          Some(Span(single.value - 1, single.value))
        else None
  }

  // ---------------------------------------------------------------------
  // findall
  // ---------------------------------------------------------------------

  /** One match of the pattern: its two groups and where it ends. */
  datatype RawMatch = RawMatch(book: string, verses: string, end: nat)

  /** The match whose book group is `t[i..e]`, if the verse group can follow it. */
  function WithVerses(t: string, i: nat, e: nat): (r: Option<RawMatch>)
    requires i <= e <= |t|
    ensures r.Some? ==> e < r.value.end <= |t| && r.value.book == t[i..e]
    ensures r.Some? ==> r.value.verses != [] && AllVerseChars(r.value.verses)
  {
    var sp := VerseSpan(t, e);
    if sp.Some? then Some(RawMatch(t[i..e], t[sp.value.start..sp.value.end], sp.value.end)) else None
  }

  /** The match of the pattern at index `i`, trying the "of" phrase first. */
  function MatchAt(t: string, i: nat): (r: Option<RawMatch>)
    requires i <= |t|
    ensures r.Some? ==> i < r.value.end <= |t|
    ensures r.Some? ==> r.value.verses != [] && AllVerseChars(r.value.verses)
  {
    var e := BookNameEnd(t, i);
    if e.None? then None
    else
      var o := OfPhraseEnd(t, e.value);
      if o.Some? && WithVerses(t, i, o.value).Some? then WithVerses(t, i, o.value)
      else WithVerses(t, i, e.value)
  }

  /** `re.findall` from index `p`: the leftmost match, then the next one after it. */
  function FindAllFrom(t: string, p: nat): (ms: seq<RawMatch>)
    requires p <= |t|
    ensures forall k | 0 <= k < |ms| :: ms[k].verses != [] && AllVerseChars(ms[k].verses)
    decreases |t| - p
  {
    if p == |t| then []
    else
      var m := MatchAt(t, p);
      if m.Some? then [m.value] + FindAllFrom(t, m.value.end) else FindAllFrom(t, p + 1)
  }

  // ---------------------------------------------------------------------
  // parse_scripture_references
  // ---------------------------------------------------------------------

  /** Python `s.rstrip(c)` for one character. */
  function RStripChar(s: string, c: char): (r: string)
    ensures |r| <= |s| && r == s[..|r|]
    ensures r == [] || r[|r| - 1] != c
    ensures forall k | |r| <= k < |s| :: s[k] == c
    decreases |s|
  {
    if s != [] && s[|s| - 1] == c then RStripChar(s[..|s| - 1], c) else s
  }

  /** One entry of the result: `{'book': ..., 'verses': ..., 'full': ...}`. */
  datatype Reference = Reference(book: string, verses: string, full: string)

  function ToReference(m: RawMatch): Reference {
    var book := NormalizeBookName(m.book);
    var verses := RStripChar(Strip(m.verses), ',');
    Reference(book, verses, book + " " + verses)
  }

  /** `parse_scripture_references(readings_str)`; `None` stands for Python's `None`. */
  function ParseScriptureReferences(readings: Option<string>): (refs: seq<Reference>)
    ensures readings.None? || readings == Some([]) ==> refs == []
  {
    if readings.None? || readings.value == [] then []
    else
      ToReferences(FindAllFrom(readings.value, 0))
  }

  /** The loop over the matches: one reference per match, in order. */
  function ToReferences(ms: seq<RawMatch>): (refs: seq<Reference>)
    ensures |refs| == |ms|
  {
    seq(|ms|, k requires 0 <= k < |ms| => ToReference(ms[k]))
  }

  /**
    What every reference satisfies: a normalised book, verses made only of
    `[\d:,\-\s]` without leading whitespace or a trailing comma, and
    `full == book + " " + verses`.
  */
  predicate WellFormedReference(r: Reference) {
    NormalizeBookName(r.book) == r.book &&
    AllVerseChars(r.verses) &&
    (r.verses == [] || (!IsSpace(r.verses[0]) && r.verses[|r.verses| - 1] != ',')) &&
    r.full == r.book + " " + r.verses
  }

  lemma VerseCharsSlice(s: string, i: nat, j: nat)
    requires AllVerseChars(s) && i <= j <= |s|
    ensures AllVerseChars(s[i..j])
  {
    forall k | 0 <= k < j - i ensures IsVerseChar(s[i..j][k]) {
      assert s[i..j][k] == s[i + k];
    }
  }

  lemma StripVerseChars(s: string)
    requires AllVerseChars(s)
    ensures AllVerseChars(Strip(s))
  {
    var l := LStrip(s);
    VerseCharsSlice(s, |s| - |l|, |s|);
    VerseCharsSlice(l, 0, |RStrip(l)|);
  }

  lemma ToReferenceWellFormed(m: RawMatch)
    requires AllVerseChars(m.verses)
    ensures WellFormedReference(ToReference(m))
  {
    var r := ToReference(m);
    assert NormalizeBookName(r.book) == r.book by {
      NormalizeIdempotent(m.book);
    }
    var s := Strip(m.verses);
    assert r.verses == RStripChar(s, ',');
    assert AllVerseChars(r.verses) by {
      StripVerseChars(m.verses);
      VerseCharsSlice(s, 0, |r.verses|);
    }
    if r.verses != [] {
      assert r.verses[0] == s[0];
    }
  }

  /** Every parsed reference is well formed. */
  lemma ParsedReferencesWellFormed(readings: Option<string>)
    ensures forall k | 0 <= k < |ParseScriptureReferences(readings)| ::
      WellFormedReference(ParseScriptureReferences(readings)[k])
  {
    if readings.Some? && readings.value != [] {
      var ms := FindAllFrom(readings.value, 0);
      forall k | 0 <= k < |ms| ensures WellFormedReference(ToReferences(ms)[k]) {
        ToReferenceWellFormed(ms[k]);
      }
    }
  }

  /** The verses of a reference never hold a letter, so a span like "6:1b-11" is never captured. */
  lemma VersesHaveNoLetters(r: Reference)
    requires WellFormedReference(r)
    ensures forall k | 0 <= k < |r.verses| :: !IsAlpha(r.verses[k])
  {
    VerseCharsNoLetters(r.verses);
  }

  lemma VerseCharsNoLetters(v: string)
    requires AllVerseChars(v)
    ensures forall k | 0 <= k < |v| :: !IsAlpha(v[k])
  {
    forall k | 0 <= k < |v| ensures !IsAlpha(v[k]) {
      assert IsVerseChar(v[k]);
    }
  }

  /** At "Romans 6:1b-11" the pattern does not match: the verse group cannot reach past the "b". */
  lemma NoMatchBeforeLetterInVerses()
    ensures MatchAt("Romans 6:1b-11", 0) == None
  {
    RomansBook();
    RomansNoOfPhrase();
    RomansNoVerses();
  }

  lemma RomansBook()
    ensures BookNameEnd("Romans 6:1b-11", 0) == Some(6)
  {
    var t := "Romans 6:1b-11";
    assert SkipSpaces(t, 0) == 0;
    assert SkipLower(t, 6) == 6;
    assert SkipLower(t, 1) == 6;
  }

  lemma RomansNoOfPhrase()
    ensures OfPhraseEnd("Romans 6:1b-11", 6) == None
  {
    var t := "Romans 6:1b-11";
    assert SkipSpaces(t, 7) == 7;
    assert SkipSpaces(t, 6) == 7;
    assert t[7..9] != "of";
  }

  lemma RomansNoVerses()
    ensures VerseSpan("Romans 6:1b-11", 6) == None
  {
    var t := "Romans 6:1b-11";
    assert SkipSpaces(t, 7) == 7;
    assert SkipSpaces(t, 6) == 7;
    assert SkipVerseChars(t, 7) == 10 by {
      assert SkipVerseChars(t, 10) == 10;
    }
    assert FirstLookahead(t, 8, 10) == None by {
      assert SkipSpaces(t, 8) == 8 && SkipSpaces(t, 9) == 9 && SkipSpaces(t, 10) == 10;
      assert !NextBookOrEnd(t, 8) && !NextBookOrEnd(t, 9) && !NextBookOrEnd(t, 10);
    }
  }

  // ---------------------------------------------------------------------
  // What findall finds
  // ---------------------------------------------------------------------

  lemma {:induction false} SkipLowerTo(t: string, i: nat, e: nat)
    requires i <= e <= |t| && forall k | i <= k < e :: IsLowerChar(t[k])
    requires e < |t| ==> !IsLowerChar(t[e])
    ensures SkipLower(t, i) == e
    decreases e - i
  {
    if i < e {
      SkipLowerTo(t, i + 1, e);
    }
  }

  /** Whitespace from `i` ends no later than a non-whitespace character at or after it. */
  lemma {:induction false} SkipSpacesBefore(t: string, i: nat, k: nat)
    requires i <= k < |t| && !IsSpace(t[k])
    ensures SkipSpaces(t, i) <= k
    decreases k - i
  {
    if i < k && IsSpace(t[i]) {
      SkipSpacesBefore(t, i + 1, k);
    }
  }

  /** The book group at `p` is the name `[A-Z][a-z]+` that starts at `b` and ends at `e`. */
  lemma BookAt(t: string, p: nat, b: nat, e: nat)
    requires p <= b && b + 2 <= e < |t|
    requires SkipSpaces(t, if p < |t| && IsDigit(t[p]) then p + 1 else p) == b
    requires IsUpperChar(t[b]) && (forall k | b < k < e :: IsLowerChar(t[k])) && !IsLowerChar(t[e])
    ensures BookNameEnd(t, p) == Some(e)
  {
    SkipLowerTo(t, b + 1, e);
  }

  /** No book group starts at `k` when no capital follows before `hi`, and `hi - 1` ends the run. */
  lemma NoBookAt(t: string, k: nat, hi: nat)
    requires k < hi <= |t| && forall i | k <= i < hi :: !IsUpperChar(t[i])
    requires !IsSpace(t[hi - 1]) && !IsDigit(t[hi - 1])
    ensures BookNameEnd(t, k) == None
  {
    var d := if IsDigit(t[k]) then k + 1 else k;
    SkipSpacesBefore(t, d, hi - 1);
  }

  /**
    Inside verses that end in a character other than whitespace, and other
    than a digit when more text follows, the lookahead never holds.
  */
  lemma NoLookaheadInVerses(t: string, lo: nat, q: nat, y: nat)
    requires lo <= y < q <= |t|
    requires forall k | lo <= k < q :: IsVerseChar(t[k])
    requires !IsSpace(t[q - 1]) && (q < |t| ==> !IsDigit(t[q - 1]))
    ensures !NextBookOrEnd(t, y)
  {
    SkipSpacesBefore(t, y, q - 1);
    var s := SkipSpaces(t, y);
    assert IsVerseChar(t[s]);
    if IsDigit(t[s]) && s + 1 < q {
      SkipSpacesBefore(t, s + 1, q - 1);
      assert IsVerseChar(t[SkipSpaces(t, s + 1)]);
    }
  }

  lemma {:induction false} FirstLookaheadAt(t: string, x: nat, hi: nat, q: nat)
    requires x <= q <= hi <= |t| && NextBookOrEnd(t, q)
    requires forall y | x <= y < q :: !NextBookOrEnd(t, y)
    ensures FirstLookahead(t, x, hi) == Some(q)
    decreases q - x
  {
    if x < q {
      FirstLookaheadAt(t, x + 1, hi, q);
    }
  }

  lemma {:induction false} SkipVerseCharsPast(t: string, i: nat, q: nat)
    requires i <= q <= |t| && forall k | i <= k < q :: IsVerseChar(t[k])
    ensures q <= SkipVerseChars(t, i)
    decreases q - i
  {
    if i < q {
      SkipVerseCharsPast(t, i + 1, q);
    }
  }

  /**
    One whitespace character at `e`, then verses up to `q`: they start and
    end outside whitespace, and the lookahead holds at `q`.
  */
  predicate VersesRunTo(t: string, e: nat, q: nat) {
    e + 1 < q <= |t| && IsSpace(t[e]) && !IsSpace(t[e + 1]) &&
    (forall k | e + 1 <= k < q :: IsVerseChar(t[k])) &&
    !IsSpace(t[q - 1]) && (q < |t| ==> !IsDigit(t[q - 1])) &&
    NextBookOrEnd(t, q)
  }

  /** The lazy verse group stops at the first place the lookahead holds. */
  lemma VerseSpanTo(t: string, e: nat, q: nat)
    requires VersesRunTo(t, e, q)
    ensures VerseSpan(t, e) == Some(Span(e + 1, q))
  {
    assert SkipSpaces(t, e) == e + 1;
    SkipVerseCharsPast(t, e + 1, q);
    forall y | e + 2 <= y < q ensures !NextBookOrEnd(t, y) {
      NoLookaheadInVerses(t, e + 1, q, y);
    }
    FirstLookaheadAt(t, e + 2, SkipVerseChars(t, e + 1), q);
  }

  /** A book group followed by verses is matched, with both groups as found. */
  lemma MatchAtTo(t: string, p: nat, e: nat, q: nat)
    requires p <= e <= |t| && BookNameEnd(t, p) == Some(e) && VersesRunTo(t, e, q)
    ensures MatchAt(t, p) == Some(RawMatch(t[p..e], t[e + 1..q], q))
  {
    VerseSpanTo(t, e, q);
    assert SkipSpaces(t, e) == e + 1;
    assert IsVerseChar(t[e + 1]);
    assert !OccursAt(t, "of", e + 1) by {
      if e + 3 <= |t| {
        assert t[e + 1..e + 3][0] == t[e + 1];
      }
    }
  }

  /** `findall` keeps a match and goes on after it. */
  lemma FindAllStep(t: string, p: nat, m: RawMatch)
    requires p < |t| && MatchAt(t, p) == Some(m)
    ensures FindAllFrom(t, p) == [m] + FindAllFrom(t, m.end)
  {
  }

  /** `[A-Z][a-z]+`, after a digit and a space in a numbered book such as "1 John". */
  predicate IsBookGroup(b: string) {
    var j := if b != [] && IsDigit(b[0]) then 2 else 0;
    j + 2 <= |b| && (j == 2 ==> b[1] == ' ') &&
    IsUpperChar(b[j]) && forall k | j < k < |b| :: IsLowerChar(b[k])
  }

  /** Verses as a reading writes them: verse characters, no outer whitespace, no trailing comma. */
  predicate IsVerseText(v: string) {
    v != [] && AllVerseChars(v) && IsStripped(v) && v[|v| - 1] != ','
  }

  /** A book group is matched in full when what follows is not a lower-case letter. */
  lemma BookGroupAt(b: string, rest: string)
    requires IsBookGroup(b) && rest != [] && !IsLowerChar(rest[0])
    ensures BookNameEnd(b + rest, 0) == Some(|b|)
  {
    var t := b + rest;
    var j := if IsDigit(b[0]) then 2 else 0;
    assert t[0] == b[0] && t[j] == b[j] && t[|b|] == rest[0];
    if j == 2 {
      assert t[1] == ' ';
      assert SkipSpaces(t, 2) == 2;
    }
    assert SkipSpaces(t, if IsDigit(t[0]) then 1 else 0) == j;
    forall k | j < k < |b| ensures IsLowerChar(t[k]) {
      assert t[k] == b[k];
    }
    BookAt(t, 0, j, |b|);
  }

  /** After the book group, one space and verse text run to the end of the line. */
  lemma VersesToEnd(b: string, v: string)
    requires IsVerseText(v)
    ensures VersesRunTo(b + " " + v, |b|, |b| + 1 + |v|)
  {
    var t := b + " " + v;
    var e := |b|;
    assert t[e] == ' ' && t[e + 1] == v[0] && t[|t| - 1] == v[|v| - 1];
    forall k | e + 1 <= k < |t| ensures IsVerseChar(t[k]) {
      assert t[k] == v[k - e - 1];
    }
    assert AtEnd(t, |t|);
  }

  lemma JoinedParts(b: string, v: string)
    ensures (b + " " + v)[0..|b|] == b && (b + " " + v)[|b| + 1..|b| + 1 + |v|] == v
  {
  }

  /** On a line holding one reference, the pattern matches its book and its verses at the start. */
  lemma OneMatchAt(b: string, v: string)
    requires IsBookGroup(b) && IsVerseText(v)
    ensures MatchAt(b + " " + v, 0) == Some(RawMatch(b, v, |b| + 1 + |v|))
  {
    var t := b + " " + v;
    BookGroupAt(b, " " + v);
    assert b + (" " + v) == t;
    VersesToEnd(b, v);
    JoinedParts(b, v);
    MatchOfParts(t, b, v);
  }

  /** The match at the start of a line that is a book group, a space and verses. */
  lemma MatchOfParts(t: string, b: string, v: string)
    requires |t| == |b| + 1 + |v| && t[0..|b|] == b && t[|b| + 1..|b| + 1 + |v|] == v
    requires BookNameEnd(t, 0) == Some(|b|) && VersesRunTo(t, |b|, |t|)
    ensures MatchAt(t, 0) == Some(RawMatch(b, v, |b| + 1 + |v|))
  {
    MatchAtTo(t, 0, |b|, |t|);
  }

  /** On a line holding one reference, `findall` finds exactly its book and its verses. */
  lemma OneMatch(b: string, v: string)
    requires IsBookGroup(b) && IsVerseText(v)
    ensures FindAllFrom(b + " " + v, 0) == [RawMatch(b, v, |b| + 1 + |v|)]
  {
    OneMatchAt(b, v);
    OnlyMatch(b + " " + v, RawMatch(b, v, |b| + 1 + |v|));
  }

  /** A match that runs to the end of the text is all that `findall` finds. */
  lemma OnlyMatch(t: string, m: RawMatch)
    requires t != [] && MatchAt(t, 0) == Some(m) && m.end == |t|
    ensures FindAllFrom(t, 0) == [m]
  {
    FindAllStep(t, 0, m);
    assert FindAllFrom(t, |t|) == [];
  }

  /** A book group other than "Psalms" is already normalised. */
  lemma BookGroupNormal(b: string)
    requires IsBookGroup(b) && b != "Psalms"
    ensures NormalizeBookName(b) == b
  {
    if IsDigit(b[0]) {
      assert SkipSpaces(b, 2) == 2;
      assert SkipSpaces(b, 1) == 2;
    }
    NormalizeWellFormed(b);
  }

  /** A readings line holding one reference parses to exactly that reference. */
  lemma OneReference(b: string, v: string)
    requires IsBookGroup(b) && IsVerseText(v)
    ensures ParseScriptureReferences(Some(b + " " + v)) ==
      [Reference(NormalizeBookName(b), v, NormalizeBookName(b) + " " + v)]
    ensures b != "Psalms" ==> ParseScriptureReferences(Some(b + " " + v)) == [Reference(b, v, b + " " + v)]
  {
    var t := b + " " + v;
    OneMatch(b, v);
    var ms := FindAllFrom(t, 0);
    assert t != [] && ParseScriptureReferences(Some(t)) == ToReferences(ms);
    VersesOfMatch(v, v);
    assert ToReferences(ms) == [ToReferences(ms)[0]];
    if b != "Psalms" {
      BookGroupNormal(b);
    }
  }

  /** The example in the documentation of `parse_scripture_references`, one reading per piece. */
  function DocExample(): string {
    "Genesis 21:8-21," + " Psalm 86:1-10, 16-17," + " Romans 6:1b-11," + " Matthew 10:24-39"
  }

  lemma DocPieces(t: string)
    requires t == DocExample()
    ensures |t| == 71 && t[0..16] == "Genesis 21:8-21," && t[16..38] == " Psalm 86:1-10, 16-17,"
    ensures t[38..54] == " Romans 6:1b-11," && t[54..71] == " Matthew 10:24-39"
  {
  }

  /** What a piece written at `off` says about the characters of the line. */
  lemma PieceAt(t: string, off: nat, piece: string)
    requires off + |piece| <= |t| && t[off..off + |piece|] == piece
    ensures forall i | 0 <= i < |piece| :: t[off + i] == piece[i]
    ensures forall i, j | 0 <= i <= j <= |piece| :: t[off + i..off + j] == piece[i..j]
  {
    forall i | 0 <= i < |piece| ensures t[off + i] == piece[i] {
      assert t[off..off + |piece|][i] == t[off + i];
    }
  }

  lemma OneSpaceBefore(t: string, p: nat)
    requires p + 1 < |t| && t[p] == ' ' && !IsSpace(t[p + 1])
    ensures SkipSpaces(t, p) == p + 1
  {
    assert SkipSpaces(t, p + 1) == p + 1;
  }

  /** The book name `name`, written at `b` and reached from `p`. */
  lemma BookNamed(t: string, p: nat, b: nat, name: string)
    requires p <= b && b + |name| < |t| && t[b..b + |name|] == name
    requires IsBookGroup(name) && IsUpperChar(name[0]) && !IsLowerChar(t[b + |name|])
    requires SkipSpaces(t, if p < |t| && IsDigit(t[p]) then p + 1 else p) == b
    ensures BookNameEnd(t, p) == Some(b + |name|)
  {
    forall k | b < k < b + |name| ensures IsLowerChar(t[k]) {
      assert t[k] == t[b..b + |name|][k - b];
    }
    assert t[b] == t[b..b + |name|][0];
    BookAt(t, p, b, b + |name|);
  }

  /** A space, a capital and a small letter: the lookahead holds. */
  lemma NextBookAt(t: string, q: nat)
    requires q + 2 < |t| && t[q] == ' ' && IsUpperChar(t[q + 1]) && IsLowerChar(t[q + 2])
    ensures NextBookOrEnd(t, q)
  {
    OneSpaceBefore(t, q);
  }

  /** The verses `v`, after the whitespace at `e` and up to `q`, where the lookahead holds. */
  lemma VersesRunOf(t: string, e: nat, q: nat, v: string)
    requires e + 1 < q <= |t| && t[e + 1..q] == v && IsSpace(t[e])
    requires AllVerseChars(v) && IsStripped(v) && (q < |t| ==> !IsDigit(v[|v| - 1]))
    requires NextBookOrEnd(t, q)
    ensures VersesRunTo(t, e, q)
  {
    forall k | e + 1 <= k < q ensures IsVerseChar(t[k]) {
      assert t[k] == t[e + 1..q][k - e - 1];
    }
    assert t[e + 1] == t[e + 1..q][0] && t[q - 1] == t[e + 1..q][|v| - 1];
  }

  /** No whitespace, no capital, and no digit before one: the lookahead fails at `y`. */
  lemma NoNextBookAt(t: string, y: nat)
    requires y + 1 < |t| && !IsSpace(t[y]) && !IsUpperChar(t[y])
    requires IsDigit(t[y]) ==> !IsSpace(t[y + 1]) && !IsUpperChar(t[y + 1])
    ensures !NextBookOrEnd(t, y)
  {
    assert SkipSpaces(t, y) == y;
    if IsDigit(t[y]) {
      assert SkipSpaces(t, y + 1) == y + 1;
    }
  }

  lemma {:induction false} SkipVerseCharsTo(t: string, i: nat, j: nat)
    requires i <= j < |t| && (forall k | i <= k < j :: IsVerseChar(t[k])) && !IsVerseChar(t[j])
    ensures SkipVerseChars(t, i) == j
    decreases j - i
  {
    if i < j {
      SkipVerseCharsTo(t, i + 1, j);
    }
  }

  lemma {:induction false} NoFirstLookahead(t: string, x: nat, hi: nat)
    requires hi <= |t| && forall y | x <= y <= hi :: !NextBookOrEnd(t, y)
    ensures FirstLookahead(t, x, hi) == None
    decreases hi + 1 - x
  {
    if x <= hi {
      NoFirstLookahead(t, x + 1, hi);
    }
  }

  /** Verses cut short by a letter before the lookahead ever holds: the verse group fails. */
  lemma VerseSpanBlocked(t: string, e: nat, j: nat)
    requires e + 1 < j < |t| && IsSpace(t[e]) && !IsSpace(t[e + 1])
    requires (forall k | e + 1 <= k < j :: IsVerseChar(t[k])) && !IsVerseChar(t[j])
    requires forall y | e + 2 <= y <= j :: !NextBookOrEnd(t, y)
    ensures VerseSpan(t, e) == None
  {
    assert SkipSpaces(t, e + 1) == e + 1;
    SkipVerseCharsTo(t, e + 1, j);
    NoFirstLookahead(t, e + 2, j);
  }

  // The example's strings, one fact per lemma.

  lemma GenesisBook()
    ensures IsBookGroup("Genesis")
  {
  }

  lemma GenesisVerses()
    ensures IsVerseText("21:8-21") && "21:8-21," == "21:8-21" + [',']
  {
  }

  lemma GenesisVerseRun()
    ensures AllVerseChars("21:8-21,") && IsStripped("21:8-21,")
  {
  }

  lemma GenesisFull()
    ensures "Genesis" + " " + "21:8-21" == "Genesis 21:8-21"
  {
  }

  lemma PsalmBook()
    ensures IsBookGroup("Psalm") && " Psalm" == " " + "Psalm"
  {
  }

  lemma PsalmVerses()
    ensures IsVerseText("86:1-10, 16-17")
  {
  }

  lemma PsalmVerseRun()
    ensures AllVerseChars("86:1-10, 16-17,") && IsStripped("86:1-10, 16-17,")
  {
  }

  lemma PsalmComma()
    ensures "86:1-10, 16-17," == "86:1-10, 16-17" + [',']
  {
  }

  lemma PsalmFull()
    ensures "Psalm" + " " + "86:1-10, 16-17" == "Psalm 86:1-10, 16-17"
  {
  }

  lemma RomansIsBook()
    ensures IsBookGroup("Romans")
  {
  }

  lemma MatthewBook()
    ensures IsBookGroup("Matthew") && " Matthew" == " " + "Matthew"
  {
  }

  lemma MatthewVerses()
    ensures IsVerseText("10:24-39")
  {
  }

  lemma MatthewFull()
    ensures "Matthew" + " " + "10:24-39" == "Matthew 10:24-39"
  {
  }

  // The example, one reading at a time.

  /** "Genesis 21:8-21," opens the line. */
  lemma GenesisName(t: string, g: string)
    requires 16 < |t| && t[0..16] == g && g == "Genesis 21:8-21,"
    ensures BookNameEnd(t, 0) == Some(7) && t[0..7] == "Genesis"
  {
    PieceAt(t, 0, g);
    assert t[0..7] == g[0..7] == "Genesis";
    GenesisBook();
    assert SkipSpaces(t, 0) == 0;
    BookNamed(t, 0, 0, "Genesis");
  }

  lemma GenesisRun(t: string, g: string, p: string)
    requires 38 <= |t| && t[0..16] == g && t[16..38] == p
    requires g == "Genesis 21:8-21," && p == " Psalm 86:1-10, 16-17,"
    ensures VersesRunTo(t, 7, 16) && t[8..16] == "21:8-21,"
  {
    PieceAt(t, 0, g);
    PieceAt(t, 16, p);
    assert t[8..16] == g[8..16] == "21:8-21,";
    GenesisVerseRun();
    NextBookAt(t, 16);
    VersesRunOf(t, 7, 16, "21:8-21,");
  }

  /** " Psalm 86:1-10, 16-17," follows; its second span of verses stays in the group. */
  lemma PsalmName(t: string, p: string)
    requires 38 < |t| && t[16..38] == p && p == " Psalm 86:1-10, 16-17,"
    ensures BookNameEnd(t, 16) == Some(22) && t[16..22] == " Psalm"
  {
    PieceAt(t, 16, p);
    assert t[17..22] == p[1..6] == "Psalm";
    assert t[16..22] == p[0..6] == " Psalm";
    PsalmBook();
    OneSpaceBefore(t, 16);
    BookNamed(t, 16, 17, "Psalm");
  }

  lemma PsalmRun(t: string, p: string, r: string)
    requires 54 <= |t| && t[16..38] == p && t[38..54] == r
    requires p == " Psalm 86:1-10, 16-17," && r == " Romans 6:1b-11,"
    ensures VersesRunTo(t, 22, 38) && t[23..38] == "86:1-10, 16-17,"
  {
    PieceAt(t, 16, p);
    PieceAt(t, 38, r);
    assert t[23..38] == p[7..22] == "86:1-10, 16-17,";
    PsalmVerseRun();
    NextBookAt(t, 38);
    VersesRunOf(t, 22, 38, "86:1-10, 16-17,");
  }

  /** Nothing matches where the book group is followed by neither an "of" phrase nor verses. */
  lemma NoMatchAt(t: string, k: nat, e: nat)
    requires k <= e <= |t| && BookNameEnd(t, k) == Some(e)
    requires OfPhraseEnd(t, e) == None && VerseSpan(t, e) == None
    ensures MatchAt(t, k) == None
  {
  }

  /** `findall` moves past a place where nothing matches. */
  lemma FindAllNone(t: string, p: nat)
    requires p < |t| && MatchAt(t, p) == None
    ensures FindAllFrom(t, p) == FindAllFrom(t, p + 1)
  {
  }

  /** `findall` finds nothing in a stretch without capitals that ends outside whitespace and digits. */
  lemma {:induction false} FindAllNoCapitals(t: string, lo: nat, hi: nat)
    requires lo <= hi <= |t| && forall i | lo <= i < hi :: !IsUpperChar(t[i])
    requires lo < hi ==> !IsSpace(t[hi - 1]) && !IsDigit(t[hi - 1])
    ensures FindAllFrom(t, lo) == FindAllFrom(t, hi)
    decreases hi - lo
  {
    if lo < hi {
      NoBookAt(t, lo, hi);
      FindAllNone(t, lo);
      FindAllNoCapitals(t, lo + 1, hi);
    }
  }

  /** " Romans 6:1b-11," yields nothing: its verses cannot reach past the "b". */
  lemma RomansNameNoMatch(t: string, r: string)
    requires 54 < |t| && t[38..54] == r && r == " Romans 6:1b-11,"
    ensures MatchAt(t, 38) == None && MatchAt(t, 39) == None
  {
    RomansNameFrom(t, r);
    RomansNoVerseSpan(t, r);
    RomansNoOf(t, r);
    NoMatchAt(t, 38, 45);
    NoMatchAt(t, 39, 45);
  }

  lemma RomansNoOf(t: string, r: string)
    requires 54 < |t| && t[38..54] == r && r == " Romans 6:1b-11,"
    ensures OfPhraseEnd(t, 45) == None
  {
    PieceAt(t, 38, r);
    assert SkipSpaces(t, 46) == 46;
    assert t[46] != 'o';
  }

  lemma RomansNoCapitals(t: string, r: string)
    requires 54 < |t| && t[38..54] == r && r == " Romans 6:1b-11,"
    ensures (forall i | 40 <= i < 54 :: !IsUpperChar(t[i])) && !IsSpace(t[53]) && !IsDigit(t[53])
  {
    PieceAt(t, 38, r);
  }

  lemma RomansNameFrom(t: string, r: string)
    requires 54 < |t| && t[38..54] == r && r == " Romans 6:1b-11,"
    ensures BookNameEnd(t, 38) == Some(45) && BookNameEnd(t, 39) == Some(45)
  {
    PieceAt(t, 38, r);
    assert t[39..45] == r[1..7] == "Romans";
    RomansIsBook();
    OneSpaceBefore(t, 38);
    BookNamed(t, 38, 39, "Romans");
    assert SkipSpaces(t, 39) == 39;
    BookNamed(t, 39, 39, "Romans");
  }

  lemma RomansNoVerseSpan(t: string, r: string)
    requires 54 < |t| && t[38..54] == r && r == " Romans 6:1b-11,"
    ensures VerseSpan(t, 45) == None
  {
    PieceAt(t, 38, r);
    NoNextBookAt(t, 47);
    NoNextBookAt(t, 48);
    NoNextBookAt(t, 49);
    VerseSpanBlocked(t, 45, 49);
  }

  /** " Matthew 10:24-39" closes the line. */
  lemma MatthewName(t: string, m: string)
    requires |t| == 71 && t[54..71] == m && m == " Matthew 10:24-39"
    ensures BookNameEnd(t, 54) == Some(62) && t[54..62] == " Matthew"
  {
    PieceAt(t, 54, m);
    assert t[55..62] == m[1..8] == "Matthew";
    assert t[54..62] == m[0..8] == " Matthew";
    MatthewBook();
    OneSpaceBefore(t, 54);
    BookNamed(t, 54, 55, "Matthew");
  }

  lemma MatthewRun(t: string, m: string)
    requires |t| == 71 && t[54..71] == m && m == " Matthew 10:24-39"
    ensures VersesRunTo(t, 62, 71) && t[63..71] == "10:24-39"
  {
    PieceAt(t, 54, m);
    assert t[63..71] == m[9..17] == "10:24-39";
    MatthewVerses();
    VersesRunOf(t, 62, 71, "10:24-39");
  }

  /** A book group after whitespace, as `findall` hands on every reference but the first, normalises to itself. */
  lemma SpacedBookName(b: string)
    requires IsBookGroup(b) && b != "Psalms"
    ensures NormalizeBookName(" " + b) == b
  {
    BookGroupNormal(b);
    assert IsStripped(b) && AllSpace(" ");
    StripPadded(" ", b, []);
    assert " " + b + [] == " " + b;
    StripOfStripped(b);
  }

  /** A match where the pattern matches, then the rest of `findall`. */
  lemma MatchStep(t: string, p: nat, e: nat, q: nat)
    requires p <= e <= |t| && BookNameEnd(t, p) == Some(e) && VersesRunTo(t, e, q)
    ensures FindAllFrom(t, p) == [RawMatch(t[p..e], t[e + 1..q], q)] + FindAllFrom(t, q)
  {
    MatchAtTo(t, p, e, q);
    FindAllStep(t, p, RawMatch(t[p..e], t[e + 1..q], q));
  }

  /** `findall` over a line shaped like the example: three matches, with nothing between 38 and 54. */
  lemma DocMatchesFrom(t: string)
    requires |t| == 71
    requires BookNameEnd(t, 0) == Some(7) && VersesRunTo(t, 7, 16)
    requires BookNameEnd(t, 16) == Some(22) && VersesRunTo(t, 22, 38)
    requires FindAllFrom(t, 38) == FindAllFrom(t, 54)
    requires BookNameEnd(t, 54) == Some(62) && VersesRunTo(t, 62, 71)
    ensures FindAllFrom(t, 0) == [RawMatch(t[0..7], t[8..16], 16),
      RawMatch(t[16..22], t[23..38], 38), RawMatch(t[54..62], t[63..71], 71)]
  {
    MatchStep(t, 54, 62, 71);
    assert FindAllFrom(t, 71) == [];
    MatchStep(t, 16, 22, 38);
    MatchStep(t, 0, 7, 16);
  }

  /** `findall` on the documented example: three matches, none inside "Romans 6:1b-11,". */
  lemma DocExampleMatches(t: string)
    requires t == DocExample()
    ensures FindAllFrom(t, 0) == [RawMatch("Genesis", "21:8-21,", 16),
      RawMatch(" Psalm", "86:1-10, 16-17,", 38), RawMatch(" Matthew", "10:24-39", 71)]
  {
    DocPieces(t);
    GenesisName(t, t[0..16]);
    GenesisRun(t, t[0..16], t[16..38]);
    PsalmName(t, t[16..38]);
    PsalmRun(t, t[16..38], t[38..54]);
    RomansNameNoMatch(t, t[38..54]);
    FindAllNone(t, 38);
    FindAllNone(t, 39);
    RomansNoCapitals(t, t[38..54]);
    FindAllNoCapitals(t, 40, 54);
    MatthewName(t, t[54..71]);
    MatthewRun(t, t[54..71]);
    DocMatchesFrom(t);
  }

  /** A match with a book group and clean verses, as the loop finds it. */
  predicate MatchOf(m: RawMatch, name: string, verses: string) {
    IsBookGroup(name) && name != "Psalms" && (m.book == name || m.book == " " + name) &&
    IsVerseText(verses) && (m.verses == verses || m.verses == verses + [','])
  }

  /** A book group, possibly after one space, normalizes to itself. */
  lemma BookOfMatch(b: string, name: string)
    requires IsBookGroup(name) && name != "Psalms" && (b == name || b == " " + name)
    ensures NormalizeBookName(b) == name
  {
    if b == name {
      BookGroupNormal(name);
    } else {
      SpacedBookName(name);
    }
  }

  /** Clean verses, possibly followed by the comma that separates readings, come back without it. */
  lemma VersesOfMatch(v: string, verses: string)
    requires IsVerseText(verses) && (v == verses || v == verses + [','])
    ensures RStripChar(Strip(v), ',') == verses
  {
    assert RStripChar(verses, ',') == verses;
    if v == verses {
      StripOfStripped(v);
    } else {
      assert v[0] == verses[0] && v[|v| - 1] == ',';
      StripOfStripped(v);
      assert v[..|v| - 1] == verses;
    }
  }

  /** A match with a book group and clean verses becomes the reference to them. */
  lemma ToReferenceOf(m: RawMatch, name: string, verses: string)
    requires MatchOf(m, name, verses)
    ensures ToReference(m) == Reference(name, verses, name + " " + verses)
  {
    BookOfMatch(m.book, name);
    VersesOfMatch(m.verses, verses);
  }

  /** The reference the loop makes from a match with a book group and clean verses. */
  lemma ReferenceAt(ms: seq<RawMatch>, k: nat, name: string, verses: string)
    requires k < |ms| && MatchOf(ms[k], name, verses)
    ensures ToReferences(ms)[k] == Reference(name, verses, name + " " + verses)
  {
    ToReferenceOf(ms[k], name, verses);
  }

  /** A sequence of three elements, written out. */
  lemma SeqOfThree<T>(s: seq<T>)
    requires |s| == 3
    ensures s == [s[0], s[1], s[2]]
  {
  }

  /** Three such matches give the three references, in order. */
  lemma ThreeReferences(ms: seq<RawMatch>, n0: string, v0: string, n1: string, v1: string, n2: string, v2: string)
    requires |ms| == 3 && MatchOf(ms[0], n0, v0) && MatchOf(ms[1], n1, v1) && MatchOf(ms[2], n2, v2)
    ensures ToReferences(ms) == [Reference(n0, v0, n0 + " " + v0), Reference(n1, v1, n1 + " " + v1),
      Reference(n2, v2, n2 + " " + v2)]
  {
    ReferenceAt(ms, 0, n0, v0);
    ReferenceAt(ms, 1, n1, v1);
    ReferenceAt(ms, 2, n2, v2);
    SeqOfThree(ToReferences(ms));
  }

  lemma GenesisMatch(m: RawMatch)
    requires m == RawMatch("Genesis", "21:8-21,", 16)
    ensures MatchOf(m, "Genesis", "21:8-21")
  {
    GenesisBook();
    GenesisVerses();
  }

  lemma PsalmMatch(m: RawMatch)
    requires m == RawMatch(" Psalm", "86:1-10, 16-17,", 38)
    ensures MatchOf(m, "Psalm", "86:1-10, 16-17")
  {
    PsalmBook();
    PsalmVerses();
    PsalmComma();
  }

  lemma MatthewMatch(m: RawMatch)
    requires m == RawMatch(" Matthew", "10:24-39", 71)
    ensures MatchOf(m, "Matthew", "10:24-39")
  {
    MatthewBook();
    MatthewVerses();
  }

  /** The documented example gives Genesis, Psalm and Matthew, and drops the Romans reading. */
  lemma DocExampleReferences(t: string)
    requires t == DocExample()
    ensures ParseScriptureReferences(Some(t)) == [
      Reference("Genesis", "21:8-21", "Genesis 21:8-21"),
      Reference("Psalm", "86:1-10, 16-17", "Psalm 86:1-10, 16-17"),
      Reference("Matthew", "10:24-39", "Matthew 10:24-39")]
  {
    DocExampleMatches(t);
    var ms := FindAllFrom(t, 0);
    GenesisMatch(ms[0]);
    PsalmMatch(ms[1]);
    MatthewMatch(ms[2]);
    ThreeReferences(ms, "Genesis", "21:8-21", "Psalm", "86:1-10, 16-17", "Matthew", "10:24-39");
    GenesisFull();
    PsalmFull();
    MatthewFull();
  }

  // ---------------------------------------------------------------------
  // ref_sort_key
  // ---------------------------------------------------------------------

  /** The first index at or after `i` that holds a digit, or `|t|`. */
  function FirstDigit(t: string, i: nat): (j: nat)
    requires i <= |t|
    ensures i <= j <= |t|
    ensures forall k | i <= k < j :: !IsDigit(t[k])
    ensures j < |t| ==> IsDigit(t[j])
    decreases |t| - i
  {
    if i == |t| || IsDigit(t[i]) then i else FirstDigit(t, i + 1)
  }

  /** Key of references without a number. */
  const NoKey: (int, int) := (999, 999)

  /**
    `ref_sort_key(ref)`: the first `(\d+):?(\d*)` anywhere in the reference
    gives `(chapter, verse)`; the verse is 0 when no digits follow a colon.
  */
  function RefSortKey(r: string): (key: (int, int))
    ensures (forall k | 0 <= k < |r| :: !IsDigit(r[k])) ==> key == NoKey
  {
    var i := FirstDigit(r, 0);
    if i == |r| then NoKey
    else
      var d := SkipDigits(r, i);
      var chapter := DecimalValue(r[i..d]);
      if d < |r| && r[d] == ':' then
        var e := SkipDigits(r, d + 1);
        (chapter, if e == d + 1 then 0 else DecimalValue(r[d + 1..e]))
      else (chapter, 0)
  }

  lemma {:induction false} SkipDigitsOver(t: string, i: nat, s: string)
    requires AllDigits(s) && OccursAt(t, s, i)
    requires i + |s| == |t| || !IsDigit(t[i + |s|])
    ensures SkipDigits(t, i) == i + |s|
    decreases |s|
  {
    if s != [] {
      assert t[i] == s[0];
      assert OccursAt(t, s[1..], i + 1) by {
        assert t[i + 1..i + 1 + |s[1..]|] == t[i..i + |s|][1..];
      }
      SkipDigitsOver(t, i + 1, s[1..]);
    }
  }

  lemma {:induction false} FirstDigitIs(r: string, j: nat, i: nat)
    requires j <= i < |r| && IsDigit(r[i])
    requires forall k | j <= k < i :: !IsDigit(r[k])
    ensures FirstDigit(r, j) == i
    decreases i - j
  {
    if j < i {
      FirstDigitIs(r, j + 1, i);
    }
  }

  /** The key read from a chapter run `cs` at `i`, a colon and a verse run `vs`. */
  lemma RefSortKeyAt(r: string, i: nat, cs: string, vs: string)
    requires cs != [] && AllDigits(cs) && OccursAt(r, cs, i)
    requires forall k | 0 <= k < i :: !IsDigit(r[k])
    requires i + |cs| < |r| && r[i + |cs|] == ':'
    requires vs != [] && AllDigits(vs) && OccursAt(r, vs, i + |cs| + 1)
    requires i + |cs| + 1 + |vs| == |r| || !IsDigit(r[i + |cs| + 1 + |vs|])
    ensures RefSortKey(r) == (DecimalValue(cs) as int, DecimalValue(vs) as int)
  {
    assert r[i] == cs[0];
    FirstDigitIs(r, 0, i);
    SkipDigitsOver(r, i, cs);
    SkipDigitsOver(r, i + |cs| + 1, vs);
    RefSortKeyUnfold(r, i, cs, vs);
  }

  lemma RefSortKeyUnfold(r: string, i: nat, cs: string, vs: string)
    requires cs != [] && AllDigits(cs) && OccursAt(r, cs, i) && FirstDigit(r, 0) == i
    requires i + |cs| < |r| && r[i + |cs|] == ':' && SkipDigits(r, i) == i + |cs|
    requires vs != [] && AllDigits(vs) && OccursAt(r, vs, i + |cs| + 1)
    requires SkipDigits(r, i + |cs| + 1) == i + |cs| + 1 + |vs|
    ensures RefSortKey(r) == (DecimalValue(cs) as int, DecimalValue(vs) as int)
  {
  }

  /**
    For a book name without digits, the key of "book c:v..." is `(c, v)`:
    the key reads back the numbers written after the name.
  */
  lemma RefSortKeyReadsChapterVerse(book: string, c: nat, v: nat, rest: string)
    requires forall k | 0 <= k < |book| :: !IsDigit(book[k])
    requires rest == [] || !IsDigit(rest[0])
    ensures RefSortKey(book + " " + DecimalString(c) + ":" + DecimalString(v) + rest) == (c, v)
  {
    var cs, vs := DecimalString(c), DecimalString(v);
    var head := book + " ";
    assert forall k | 0 <= k < |head| :: !IsDigit(head[k]) by {
      forall k | 0 <= k < |head| ensures !IsDigit(head[k]) {
        if k < |book| { assert head[k] == book[k]; }
      }
    }
    ChapterVerseLayout(head, cs, vs, rest);
    RefSortKeyAt(head + cs + ":" + vs + rest, |head|, cs, vs);
    DecimalRoundTrip(c);
    DecimalRoundTrip(v);
  }

  /** Where the pieces of `head + cs + ":" + vs + rest` sit. */
  lemma ChapterVerseLayout(head: string, cs: string, vs: string, rest: string)
    requires forall k | 0 <= k < |head| :: !IsDigit(head[k])
    requires rest == [] || !IsDigit(rest[0])
    ensures var r, i := head + cs + ":" + vs + rest, |head|;
      && OccursAt(r, cs, i)
      && (forall k | 0 <= k < i :: !IsDigit(r[k]))
      && i + |cs| < |r| && r[i + |cs|] == ':'
      && OccursAt(r, vs, i + |cs| + 1)
      && (i + |cs| + 1 + |vs| == |r| || !IsDigit(r[i + |cs| + 1 + |vs|]))
  {
    var r, i := head + cs + ":" + vs + rest, |head|;
    assert forall k | 0 <= k < i :: r[k] == head[k];
    assert r[i..i + |cs|] == cs;
    assert r[i + |cs|] == ':';
    assert r[i + |cs| + 1..i + |cs| + 1 + |vs|] == vs;
    assert i + |cs| + 1 + |vs| < |r| ==> r[i + |cs| + 1 + |vs|] == rest[0];
  }

  /** For "1 John 3:16" and the like the key reads the book's own digit, with verse 0. */
  lemma RefSortKeyOfNumberedBook(r: string)
    requires |r| >= 2 && IsDigit(r[0]) && r[1] == ' '
    ensures RefSortKey(r) == (DigitValue(r[0]), 0)
  {
    assert FirstDigit(r, 0) == 0;
    assert SkipDigits(r, 1) == 1;
    assert SkipDigits(r, 0) == 1;
    var d := r[0..1];
    assert d[..0] == [];
    assert DecimalValue(d) == DigitValue(r[0]);
  }
}
