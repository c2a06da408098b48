/**
  The ingest of a meditation typed as a plain-text file: signature lines
  are trimmed from its end, lower-case Roman book prefixes are fixed, the
  date, occasion, readings, title and paragraphs are read from its lines,
  its text is escaped for HTML, and the new entries are merged into the
  site's list without repeating a date.
*/
module Ingest {
  import opened Text
  import opened Scan
  import opened Dates
  import opened Occasions
  import Seasons

  // ---------------------------------------------------------------------
  // clean_author_lines
  // ---------------------------------------------------------------------

  /**
    The words follow one another from index `i`, each run of whitespace
    between or after them is skipped (`\s*`), and the line ends there. Each
    word starts with a letter, so a whitespace run is always taken in full.
  */
  predicate WordsThenEnd(t: string, i: nat, words: seq<string>)
    decreases |words|
  {
    if words == [] then i == |t|
    else OccursAt(t, words[0], i) && WordsThenEnd(t, SkipSpaces(t, i + |words[0]|), words[1..])
  }

  /** `^\[.*\]\s*$` on a stripped line: it opens and closes with a bracket. */
  predicate BracketLine(t: string) {
    |t| >= 2 && t[0] == '[' && t[|t| - 1] == ']'
  }

  /** `^\[.*photo.*\].*$`: an opening bracket, later "photo", later a closing bracket. */
  predicate PhotoCreditLine(t: string) {
    |t| >= 1 && t[0] == '[' && exists p | 1 <= p <= |t| :: OccursAt(t, "photo", p) && ']' in t[p + 5..]
  }

  /**
    The nine signature and credit patterns, matched against the stripped,
    lower-cased line (the patterns are applied with `re.IGNORECASE`).
  */
  predicate AuthorLine(t: string) {
    WordsThenEnd(t, 0, ["pat", "horn"])
    || WordsThenEnd(t, 0, ["audrey", "horn"]) || WordsThenEnd(t, 0, ["audrey", "bruno", "horn"])
    || WordsThenEnd(t, 0, ["audry", "horn", "bruno"])
    || WordsThenEnd(t, 0, ["elizabeth", "horn"]) || WordsThenEnd(t, 0, ["elizabeth", "templeton", "horn"])
    || WordsThenEnd(t, 0, ["elizabeth", "horn", "templeton"])
    || WordsThenEnd(t, 0, ["author"])
    || WordsThenEnd(t, 0, ["photographer"])
    || BracketLine(t)
    || PhotoCreditLine(t)
  }

  /** A line with nothing but whitespace: `not line.strip()`. */
  predicate Blank(line: string) {
    AllSpace(line)
  }

  lemma BlankIffStripsEmpty(line: string)
    ensures Blank(line) <==> Strip(line) == []
  {
    if Blank(line) {
      LStripSpaces(line, []);
      assert line + [] == line;
    }
  }

  /** A line the clean-up removes when it is last: blank, or a signature or credit. */
  predicate Removable(line: string) {
    Blank(line) || AuthorLine(Lower(Strip(line)))
  }

  /** `text.strip().split('\n')`. */
  function SplitLines(text: string): (lines: seq<string>)
    ensures |lines| >= 1
  {
    SplitOn(Strip(text), '\n')
  }

  /**
    What remains of `xs` after popping elements from its end while `drop`
    holds of the last one: the longest prefix that is empty or ends in an
    element `drop` rejects, everything after it being dropped.
  */
  function DropTrailing<T>(xs: seq<T>, drop: T -> bool): (kept: seq<T>)
    ensures kept <= xs
    ensures forall i | |kept| <= i < |xs| :: drop(xs[i])
    ensures kept == [] || !drop(kept[|kept| - 1])
    decreases |xs|
  {
    if xs != [] && drop(xs[|xs| - 1]) then DropTrailing(xs[..|xs| - 1], drop) else xs
  }

  /** The lines `clean_author_lines` keeps. */
  function KeptLines(lines: seq<string>): seq<string> {
    DropTrailing(lines, Removable)
  }

  /** Python `clean_author_lines`: pop trailing blank and signature lines. */
  method CleanAuthorLines(text: string) returns (cleaned: string)
    ensures cleaned == Join(KeptLines(SplitLines(text)), "\n")
  {
    var lines := SplitLines(text);
    while lines != []
      invariant DropTrailing(lines, Removable) == KeptLines(SplitLines(text))
      decreases |lines|
    {
      var last := Strip(lines[|lines| - 1]);
      BlankIffStripsEmpty(lines[|lines| - 1]);
      if last == [] {
        lines := lines[..|lines| - 1];
        continue;
      }
      if AuthorLine(Lower(last)) {
        lines := lines[..|lines| - 1];
      } else {
        cleaned := Join(lines, "\n");
        return;
      }
    }
    cleaned := Join(lines, "\n");
  }

  /** Dropping again drops nothing more. */
  lemma DropTrailingIdempotent<T>(xs: seq<T>, drop: T -> bool)
    ensures DropTrailing(DropTrailing(xs, drop), drop) == DropTrailing(xs, drop)
  {
  }

  /** A list whose last element is kept is kept whole. */
  lemma DropTrailingKeepsLast<T>(xs: seq<T>, x: T, drop: T -> bool)
    requires !drop(x)
    ensures DropTrailing(xs + [x], drop) == xs + [x]
  {
  }

  /** A tail made only of droppable elements is dropped in full, and nothing before it. */
  lemma {:induction false} DropTrailingTail<T>(body: seq<T>, tail: seq<T>, drop: T -> bool)
    requires body == [] || !drop(body[|body| - 1])
    requires forall k | 0 <= k < |tail| :: drop(tail[k])
    ensures DropTrailing(body + tail, drop) == body
    decreases |tail|
  {
    if tail == [] {
      assert body + tail == body;
    } else {
      var l := body + tail;
      assert l[|l| - 1] == tail[|tail| - 1];
      assert l[..|l| - 1] == body + tail[..|tail| - 1];
      DropTrailingTail(body, tail[..|tail| - 1], drop);
    }
  }

  // ---------------------------------------------------------------------
  // fix_roman_numerals
  // ---------------------------------------------------------------------

  /** One substitution: `\b<numeral>\s+<book>` becomes "<NUMERAL> <book>". */
  datatype RomanFix = RomanFix(numeral: string, book: string)

  const RomanFixCount := 19

  /** The substitutions in the order the script applies them. */
  function RomanFixAt(k: nat): (f: RomanFix)
    requires k < RomanFixCount
    ensures 1 <= |f.numeral| <= 3
    ensures forall c | c in f.numeral :: c == 'i'
  {
    if k == 0 then RomanFix("ii", "")
    else if k == 1 then RomanFix("iii", "")
    else if k == 2 then RomanFix("i", "Corinthians")
    else if k == 3 then RomanFix("ii", "Corinthians")
    else if k == 4 then RomanFix("i", "Thessalonians")
    else if k == 5 then RomanFix("ii", "Thessalonians")
    else if k == 6 then RomanFix("i", "Timothy")
    else if k == 7 then RomanFix("ii", "Timothy")
    else if k == 8 then RomanFix("i", "Peter")
    else if k == 9 then RomanFix("ii", "Peter")
    else if k == 10 then RomanFix("i", "John")
    else if k == 11 then RomanFix("ii", "John")
    else if k == 12 then RomanFix("iii", "John")
    else if k == 13 then RomanFix("i", "Kings")
    else if k == 14 then RomanFix("ii", "Kings")
    else if k == 15 then RomanFix("i", "Samuel")
    else if k == 16 then RomanFix("ii", "Samuel")
    else if k == 17 then RomanFix("i", "Chronicles")
    else RomanFix("ii", "Chronicles")
  }

  /** The replacement text: the numeral in capitals, one space, the book. */
  function Canonical(f: RomanFix): string {
    Upper(f.numeral) + " " + f.book
  }

  /**
    The substitution at index `i`, letters compared without regard to
    case. The book name starts with a letter, so `\s+` takes the whole
    whitespace run.
  */
  function RomanAt(f: RomanFix, t: string, i: nat): (h: Option<Hit>)
    ensures h.Some? ==> FoldedAt(t, f.numeral, i) && IsBoundary(t, i)
    ensures h.Some? ==> 0 < h.value.len <= |t| - i
    ensures h.Some? ==> h.value.repl == Canonical(f)
  {
    if !FoldedAt(t, f.numeral, i) || !IsBoundary(t, i) then None
    else
      var j := i + |f.numeral|;
      var k := SkipSpaces(t, j);
      if k == j || !FoldedAt(t, f.book, k) then None
      else Some(Hit(k + |f.book| - i, Canonical(f)))
  }

  function RomanRule(k: nat): (string, nat) -> Option<Hit>
    requires k < RomanFixCount
  {
    (t: string, i: nat) => RomanAt(RomanFixAt(k), t, i)
  }

  /** The substitutions from the `k`-th on, applied in turn. */
  function FixesFrom(text: string, k: nat): string
    requires k <= RomanFixCount
    decreases RomanFixCount - k
  {
    if k == RomanFixCount then text else FixesFrom(Sub(text, RomanRule(k)), k + 1)
  }

  /** Python `fix_roman_numerals`: each substitution rewrites the text in turn. */
  method FixRomanNumerals(text: string) returns (fixed: string)
    ensures fixed == FixesFrom(text, 0)
  {
    fixed := text;
    for k := 0 to RomanFixCount
      invariant FixesFrom(fixed, k) == FixesFrom(text, 0)
    {
      fixed := Sub(fixed, RomanRule(k));
    }
  }

  /** Every substitution sees the same match in the lower-cased text: case never matters. */
  lemma RomanAtIgnoresCase(f: RomanFix, t: string, i: nat)
    ensures RomanAt(f, Lower(t), i) == RomanAt(f, t, i)
  {
    RomanAtView(f, t, i);
    RomanAtView(f, Lower(t), i);
    RomanViewOfLower(f, t, i);
  }

  /**
    What `RomanAt` looks at in a text: whether the numeral matches at a
    boundary, where the whitespace after it ends, and whether the book
    name follows.
  */
  function RomanView(f: RomanFix, t: string, i: nat): (bool, nat, bool) {
    if FoldedAt(t, f.numeral, i) && IsBoundary(t, i) then
      var k := SkipSpaces(t, i + |f.numeral|);
      (true, k, FoldedAt(t, f.book, k))
    else (false, i, false)
  }

  function RomanOfView(f: RomanFix, i: nat, v: (bool, nat, bool)): Option<Hit> {
    if !v.0 || v.1 <= i + |f.numeral| || !v.2 then None
    else Some(Hit(v.1 + |f.book| - i, Canonical(f)))
  }

  /** `RomanAt` depends on the text only through `RomanView`. */
  lemma RomanAtView(f: RomanFix, t: string, i: nat)
    ensures RomanAt(f, t, i) == RomanOfView(f, i, RomanView(f, t, i))
  {
  }

  lemma RomanViewOfLower(f: RomanFix, t: string, i: nat)
    ensures RomanView(f, Lower(t), i) == RomanView(f, t, i)
  {
    var u := Lower(t);
    FoldedAtLower(t, f.numeral, i);
    if FoldedAt(t, f.numeral, i) {
      BoundaryOfLower(t, i);
      if IsBoundary(t, i) {
        var j := i + |f.numeral|;
        SkipSpacesLower(t, j);
        var k := SkipSpaces(t, j);
        FoldedAtLower(t, f.book, k);
        assert RomanView(f, t, i) == (true, k, FoldedAt(t, f.book, k));
        assert RomanView(f, u, i) == (true, k, FoldedAt(u, f.book, k));
      }
    }
  }

  /** A numeral in any case, any whitespace, and the book name in any case: one canonical rewrite. */
  lemma RomanFixRewrites(n: nat, numeral: string, spaces: string, book: string, rest: string)
    requires n < RomanFixCount
    requires Lower(numeral) == Lower(RomanFixAt(n).numeral) && Lower(book) == Lower(RomanFixAt(n).book)
    requires spaces != [] && AllSpace(spaces)
    requires book + rest == [] || !IsSpace((book + rest)[0])
    ensures RomanRule(n)(numeral + spaces + book + rest, 0)
         == Some(Hit(|numeral| + |spaces| + |book|, Upper(RomanFixAt(n).numeral) + " " + RomanFixAt(n).book))
  {
    var f := RomanFixAt(n);
    assert f.numeral[0] in f.numeral;
    RomanAtRewrites(f, numeral, spaces, book, rest);
  }

  lemma RomanAtRewrites(f: RomanFix, numeral: string, spaces: string, book: string, rest: string)
    requires f.numeral != [] && f.numeral[0] == 'i'
    requires Lower(numeral) == Lower(f.numeral) && Lower(book) == Lower(f.book)
    requires spaces != [] && AllSpace(spaces)
    requires book + rest == [] || !IsSpace((book + rest)[0])
    ensures RomanAt(f, numeral + spaces + book + rest, 0)
         == Some(Hit(|numeral| + |spaces| + |book|, Upper(f.numeral) + " " + f.book))
  {
    var t := numeral + spaces + book + rest;
    var j := |numeral|;
    var k := j + |spaces|;
    assert |numeral| == |f.numeral| && |book| == |f.book|;
    assert t[..j] == numeral;
    assert t[j..k] == spaces;
    assert t[k..k + |book|] == book;
    assert t[k..] == book + rest;
    SkipSpacesRun(t, j, k);
    assert FoldedAt(t, f.numeral, 0);
    assert Lower(numeral)[0] == Lower(f.numeral)[0] == 'i';
    assert IsWordChar(t[0]);
    assert IsBoundary(t, 0);
    assert FoldedAt(t, f.book, k);
  }

  /** Text without the letter i, in either case, is left alone. */
  lemma NoNumeralUnchanged(t: string, k: nat)
    requires k <= RomanFixCount
    requires 'i' !in Lower(t)
    ensures FixesFrom(t, k) == t
  {
    forall j | k <= j < RomanFixCount
      ensures Sub(t, RomanRule(j)) == t
    {
      NoFixChanges(t, j);
    }
    AllFixesIdle(t, k);
  }

  /** Substitutions that each leave the text alone leave it alone together. */
  lemma {:induction false} AllFixesIdle(t: string, k: nat)
    requires k <= RomanFixCount
    requires forall j | k <= j < RomanFixCount :: Sub(t, RomanRule(j)) == t
    ensures FixesFrom(t, k) == t
    decreases RomanFixCount - k
  {
    if k < RomanFixCount {
      AllFixesIdle(t, k + 1);
    }
  }

  lemma NoFixChanges(t: string, k: nat)
    requires k < RomanFixCount && 'i' !in Lower(t)
    ensures Sub(t, RomanRule(k)) == t
  {
    NoRuleFires(t, k);
    SubNoMatch(t, RomanRule(k));
  }

  lemma NoRuleFires(t: string, k: nat)
    requires k < RomanFixCount && 'i' !in Lower(t)
    ensures forall j | 0 <= j < |t| :: !Fires(RomanRule(k), t, j)
  {
    var f := RomanFixAt(k);
    assert f.numeral[0] in f.numeral;
    forall j | 0 <= j < |t| ensures !Fires(RomanRule(k), t, j) {
      NoFoldedI(t, f.numeral, j);
    }
  }

  /** A word starting with i is found nowhere in text without an i. */
  lemma NoFoldedI(t: string, w: string, i: nat)
    requires 'i' !in Lower(t) && w != [] && w[0] == 'i'
    ensures !FoldedAt(t, w, i)
  {
    if i + |w| <= |t| {
      assert Lower(t)[i] in Lower(t);
      assert Lower(t[i..i + |w|])[0] == Lower(t)[i];
      assert Lower(w)[0] == 'i';
    }
  }

  // ---------------------------------------------------------------------
  // parse_filename
  // ---------------------------------------------------------------------

  /** Python `parse_filename`: the leading date of a name like "2008-11-02_....txt". */
  function ParseFilename(name: string): (r: Option<string>)
    ensures r.Some? ==> IsDate(r.value) && StartsWith(name, r.value + "_")
    ensures r.None? ==> !(|name| > 10 && StartsWithDate(name) && name[10] == '_')
  {
    if |name| > 10 && StartsWithDate(name) && name[10] == '_' then
      assert name[..11] == name[..10] + "_";
      Some(name[..10])
    else None
  }

  /** A date followed by an underscore is read back from any file name. */
  lemma ParseFilenameOf(date: string, rest: string)
    requires IsDate(date)
    ensures ParseFilename(date + "_" + rest) == Some(date)
  {
    var name := date + "_" + rest;
    assert name[..10] == date;
    assert name[10] == '_';
  }

  // ---------------------------------------------------------------------
  // escape_html
  // ---------------------------------------------------------------------

  /** Python `escape_html`: `&` first, then `<`, `>` and `"`. */
  function EscapeHtml(s: string): string {
    ReplaceAll(ReplaceAll(ReplaceAll(ReplaceAll(s, "&", "&amp;"), "<", "&lt;"), ">", "&gt;"), "\"", "&quot;")
  }

  /** The escape of one character. */
  function EscapeChar(c: char): (r: string)
    ensures r != [] && '<' !in r && '>' !in r && '"' !in r
  {
    if c == '&' then "&amp;"
    else if c == '<' then "&lt;"
    else if c == '>' then "&gt;"
    else if c == '"' then "&quot;"
    else [c]
  }

  /** The four replacements of single characters act character by character. */
  lemma EscapeHtmlCons(c: char, s: string)
    ensures EscapeHtml([c] + s) == EscapeChar(c) + EscapeHtml(s)
  {
    var r1 := ReplaceAll([c], "&", "&amp;");
    var r2 := ReplaceAll(r1, "<", "&lt;");
    var r3 := ReplaceAll(r2, ">", "&gt;");
    ReplaceCharAppend([c], s, '&', "&amp;");
    var s1 := ReplaceAll(s, "&", "&amp;");
    ReplaceCharAppend(r1, s1, '<', "&lt;");
    var s2 := ReplaceAll(s1, "<", "&lt;");
    ReplaceCharAppend(r2, s2, '>', "&gt;");
    var s3 := ReplaceAll(s2, ">", "&gt;");
    ReplaceCharAppend(r3, s3, '"', "&quot;");
    EscapeCharStages(c);
  }

  lemma EscapeCharStages(c: char)
    ensures ReplaceAll(ReplaceAll(ReplaceAll(ReplaceAll([c], "&", "&amp;"), "<", "&lt;"), ">", "&gt;"), "\"", "&quot;")
         == EscapeChar(c)
  {
    if c == '&' {
      assert ReplaceAll([c], "&", "&amp;") == "&amp;";
      ReplaceCharAbsent("&amp;", '<', "&lt;");
      ReplaceCharAbsent("&amp;", '>', "&gt;");
      ReplaceCharAbsent("&amp;", '"', "&quot;");
    } else {
      ReplaceCharAbsent([c], '&', "&amp;");
      if c == '<' {
        assert ReplaceAll([c], "<", "&lt;") == "&lt;";
        ReplaceCharAbsent("&lt;", '>', "&gt;");
        ReplaceCharAbsent("&lt;", '"', "&quot;");
      } else {
        ReplaceCharAbsent([c], '<', "&lt;");
        if c == '>' {
          assert ReplaceAll([c], ">", "&gt;") == "&gt;";
          ReplaceCharAbsent("&gt;", '"', "&quot;");
        } else {
          ReplaceCharAbsent([c], '>', "&gt;");
          if c == '"' {
            assert ReplaceAll([c], "\"", "&quot;") == "&quot;";
          } else {
            ReplaceCharAbsent([c], '"', "&quot;");
          }
        }
      }
    }
  }

  /** Reads the four entities back; every other character stands for itself. */
  function Unescape(t: string): string
    decreases |t|
  {
    if t == [] then []
    else if StartsWith(t, "&amp;") then "&" + Unescape(t[5..])
    else if StartsWith(t, "&lt;") then "<" + Unescape(t[4..])
    else if StartsWith(t, "&gt;") then ">" + Unescape(t[4..])
    else if StartsWith(t, "&quot;") then "\"" + Unescape(t[6..])
    else [t[0]] + Unescape(t[1..])
  }

  lemma UnescapeStep(c: char, u: string)
    ensures Unescape(EscapeChar(c) + u) == [c] + Unescape(u)
  {
    if c == '&' {
      UnescapeAmp(u);
    } else if c == '<' {
      UnescapeLt(u);
    } else if c == '>' {
      UnescapeGt(u);
    } else if c == '"' {
      UnescapeQuot(u);
    } else {
      UnescapePlain(c, u);
    }
  }

  lemma UnescapeAmp(u: string)
    ensures Unescape("&amp;" + u) == "&" + Unescape(u)
  {
    var t := "&amp;" + u;
    assert t[..5] == "&amp;" && t[5..] == u;
  }

  lemma UnescapeLt(u: string)
    ensures Unescape("&lt;" + u) == "<" + Unescape(u)
  {
    var t := "&lt;" + u;
    assert t[1] == 'l' && t[..4] == "&lt;" && t[4..] == u;
  }

  lemma UnescapeGt(u: string)
    ensures Unescape("&gt;" + u) == ">" + Unescape(u)
  {
    var t := "&gt;" + u;
    assert t[1] == 'g' && t[..4] == "&gt;" && t[4..] == u;
  }

  lemma UnescapeQuot(u: string)
    ensures Unescape("&quot;" + u) == "\"" + Unescape(u)
  {
    var t := "&quot;" + u;
    assert t[1] == 'q' && t[..6] == "&quot;" && t[6..] == u;
  }

  lemma UnescapePlain(c: char, u: string)
    requires c != '&'
    ensures Unescape([c] + u) == [c] + Unescape(u)
  {
    var t := [c] + u;
    assert t[0] == c && t[1..] == u;
  }

  /** Escaping loses nothing: reading the entities back gives the original text. */
  lemma {:induction false} UnescapeEscape(s: string)
    ensures Unescape(EscapeHtml(s)) == s
    decreases |s|
  {
    if s != [] {
      assert s == [s[0]] + s[1..];
      EscapeHtmlCons(s[0], s[1..]);
      UnescapeStep(s[0], EscapeHtml(s[1..]));
      UnescapeEscape(s[1..]);
    } else {
      assert EscapeHtml(s) == [];
    }
  }

  /** Escaped text holds no `<`, `>` or `"`. */
  lemma {:induction false} EscapedHasNoMarkup(s: string)
    ensures '<' !in EscapeHtml(s) && '>' !in EscapeHtml(s) && '"' !in EscapeHtml(s)
    decreases |s|
  {
    if s != [] {
      assert s == [s[0]] + s[1..];
      EscapeHtmlCons(s[0], s[1..]);
      EscapedHasNoMarkup(s[1..]);
    } else {
      assert EscapeHtml(s) == [];
    }
  }

  // ---------------------------------------------------------------------
  // Paragraphs
  // ---------------------------------------------------------------------

  /** Number of non-blank lines at the front of `lines`. */
  function RunLength(lines: seq<string>): (n: nat)
    ensures n <= |lines|
    ensures forall i | 0 <= i < n :: !Blank(lines[i])
    ensures n < |lines| ==> Blank(lines[n])
  {
    if lines != [] && !Blank(lines[0]) then 1 + RunLength(lines[1..]) else 0
  }

  /** Every line stripped. */
  function Stripped(lines: seq<string>): (r: seq<string>)
    ensures |r| == |lines|
    ensures forall i | 0 <= i < |lines| :: r[i] == Strip(lines[i])
  {
    Map(Strip, lines)
  }

  /** `[f(x) for x in xs]`. */
  function Map<T, U>(f: T -> U, xs: seq<T>): (r: seq<U>)
    ensures |r| == |xs|
    ensures forall i | 0 <= i < |xs| :: r[i] == f(xs[i])
  {
    seq(|xs|, i requires 0 <= i < |xs| => f(xs[i]))
  }

  /**
    The paragraphs of a body: each maximal run of non-blank lines, every
    line stripped, joined with single spaces.
  */
  function Paragraphs(lines: seq<string>): seq<string>
    decreases |lines|
  {
    if lines == [] then []
    else if Blank(lines[0]) then Paragraphs(lines[1..])
    else
      var n := RunLength(lines);
      [Join(Stripped(lines[..n]), " ")] + Paragraphs(lines[n..])
  }

  /** The paragraphs still to come when `current` holds the lines of an unfinished paragraph. */
  function Pending(current: seq<string>, rest: seq<string>): seq<string> {
    if current == [] then Paragraphs(rest)
    else
      var n := RunLength(rest);
      [Join(current + Stripped(rest[..n]), " ")] + Paragraphs(rest[n..])
  }

  lemma RunShift(rest: seq<string>)
    requires rest != [] && !Blank(rest[0])
    ensures RunLength(rest[1..]) == RunLength(rest) - 1
    ensures Stripped(rest[..RunLength(rest)])
         == [Strip(rest[0])] + Stripped(rest[1..][..RunLength(rest) - 1])
    ensures rest[1..][RunLength(rest) - 1..] == rest[RunLength(rest)..]
  {
    var n := RunLength(rest);
    StrippedShift(rest, n);
    DropShift(rest, n);
  }

  lemma StrippedShift(rest: seq<string>, n: nat)
    requires 1 <= n <= |rest|
    ensures Stripped(rest[..n]) == [Strip(rest[0])] + Stripped(rest[1..][..n - 1])
  {
    MapShift(Strip, rest, n);
  }

  lemma MapShift<T, U>(f: T -> U, rest: seq<T>, n: nat)
    requires 1 <= n <= |rest|
    ensures Map(f, rest[..n]) == [f(rest[0])] + Map(f, rest[1..][..n - 1])
  {
    assert rest[1..][..n - 1] == rest[1..n];
  }

  lemma DropShift<T>(rest: seq<T>, n: nat)
    requires 1 <= n <= |rest|
    ensures rest[1..][n - 1..] == rest[n..]
  {
  }

  lemma PendingNonBlank(current: seq<string>, rest: seq<string>)
    requires rest != [] && !Blank(rest[0])
    ensures Pending(current + [Strip(rest[0])], rest[1..]) == Pending(current, rest)
  {
    RunShift(rest);
    if current == [] {
      StartParagraph(rest);
    } else {
      ContinueParagraph(current, rest);
    }
  }

  lemma StartParagraph(rest: seq<string>)
    requires rest != [] && !Blank(rest[0])
    requires RunLength(rest[1..]) == RunLength(rest) - 1
    requires Stripped(rest[..RunLength(rest)])
         == [Strip(rest[0])] + Stripped(rest[1..][..RunLength(rest) - 1])
    requires rest[1..][RunLength(rest) - 1..] == rest[RunLength(rest)..]
    ensures Pending([Strip(rest[0])], rest[1..]) == Paragraphs(rest)
  {
  }

  lemma ContinueParagraph(current: seq<string>, rest: seq<string>)
    requires current != [] && rest != [] && !Blank(rest[0])
    requires RunLength(rest[1..]) == RunLength(rest) - 1
    requires Stripped(rest[..RunLength(rest)])
         == [Strip(rest[0])] + Stripped(rest[1..][..RunLength(rest) - 1])
    requires rest[1..][RunLength(rest) - 1..] == rest[RunLength(rest)..]
    ensures Pending(current + [Strip(rest[0])], rest[1..]) == Pending(current, rest)
  {
    var run := Stripped(rest[1..][..RunLength(rest) - 1]);
    assert current + [Strip(rest[0])] + run == current + ([Strip(rest[0])] + run);
  }

  lemma PendingBlank(current: seq<string>, rest: seq<string>)
    requires rest != [] && Blank(rest[0])
    ensures Pending(current, rest)
         == (if current == [] then [] else [Join(current, " ")]) + Pending([], rest[1..])
  {
    if current != [] {
      assert RunLength(rest) == 0;
      assert rest[..0] == [] && rest[0..] == rest;
      assert current + Stripped([]) == current;
    }
  }

  lemma PendingEnd(current: seq<string>)
    ensures Pending(current, []) == if current == [] then [] else [Join(current, " ")]
  {
    if current != [] {
      assert current + Stripped([]) == current;
    }
  }

  lemma StepNonBlank(paragraphs: seq<string>, current: seq<string>, lines: seq<string>, j: nat)
    requires j < |lines| && !Blank(lines[j])
    requires paragraphs + Pending(current, lines[j..]) == Paragraphs(lines)
    ensures paragraphs + Pending(current + [Strip(lines[j])], lines[j + 1..]) == Paragraphs(lines)
  {
    var rest := lines[j..];
    assert rest[0] == lines[j] && rest[1..] == lines[j + 1..];
    PendingNonBlank(current, rest);
  }

  lemma StepBlank(paragraphs: seq<string>, current: seq<string>, lines: seq<string>, j: nat)
    requires j < |lines| && Blank(lines[j])
    requires paragraphs + Pending(current, lines[j..]) == Paragraphs(lines)
    ensures (if current == [] then paragraphs else paragraphs + [Join(current, " ")]) + Pending([], lines[j + 1..])
         == Paragraphs(lines)
  {
    var rest := lines[j..];
    assert rest[0] == lines[j] && rest[1..] == lines[j + 1..];
    PendingBlank(current, rest);
    if current != [] {
      assert paragraphs + ([Join(current, " ")] + Pending([], rest[1..]))
          == paragraphs + [Join(current, " ")] + Pending([], rest[1..]);
    }
  }

  /** The paragraph loop of `parse_meditation_file`. */
  method BuildParagraphs(lines: seq<string>) returns (paragraphs: seq<string>)
    ensures paragraphs == Paragraphs(lines)
  {
    paragraphs := [];
    var current: seq<string> := [];
    for j := 0 to |lines|
      invariant paragraphs + Pending(current, lines[j..]) == Paragraphs(lines)
    {
      var line := lines[j];
      BlankIffStripsEmpty(line);
      if Strip(line) != [] {
        StepNonBlank(paragraphs, current, lines, j);
        current := current + [Strip(line)];
      } else {
        StepBlank(paragraphs, current, lines, j);
        if current != [] {
          paragraphs := paragraphs + [Join(current, " ")];
          current := [];
        }
      }
    }
    assert lines[|lines|..] == [];
    PendingEnd(current);
    if current != [] {
      paragraphs := paragraphs + [Join(current, " ")];
    }
  }

  /** No paragraph is empty, and there are never more paragraphs than lines. */
  lemma {:induction false} ParagraphsNonEmpty(lines: seq<string>)
    ensures |Paragraphs(lines)| <= |lines|
    ensures forall k | 0 <= k < |Paragraphs(lines)| :: Paragraphs(lines)[k] != []
    decreases |lines|
  {
    if lines != [] {
      if Blank(lines[0]) {
        ParagraphsNonEmpty(lines[1..]);
      } else {
        var n := RunLength(lines);
        ParagraphsNonEmpty(lines[n..]);
        JoinFirst(Stripped(lines[..n]), " ");
      }
    }
  }

  /** Joined text starts with its first piece. */
  lemma JoinFirst(ws: seq<string>, sep: string)
    requires ws != []
    ensures StartsWith(Join(ws, sep), ws[0])
  {
    if |ws| > 1 {
      assert Join(ws, sep)[..|ws[0]|] == ws[0];
    }
  }

  /** Blank lines before a body do not change its paragraphs. */
  lemma {:induction false} ParagraphsSkipBlanks(lines: seq<string>, i: nat, j: nat)
    requires i <= j <= |lines|
    requires forall k | i <= k < j :: Blank(lines[k])
    ensures Paragraphs(lines[i..]) == Paragraphs(lines[j..])
    decreases j - i
  {
    if i < j {
      assert lines[i..][1..] == lines[i + 1..];
      ParagraphsSkipBlanks(lines, i + 1, j);
    }
  }

  /** A body with one run of lines is one paragraph. */
  lemma OneRunOneParagraph(lines: seq<string>)
    requires lines != [] && forall i | 0 <= i < |lines| :: !Blank(lines[i])
    ensures Paragraphs(lines) == [Join(Stripped(lines), " ")]
  {
    assert RunLength(lines) == |lines|;
    assert lines[..|lines|] == lines;
    assert lines[|lines|..] == [];
  }

  // ---------------------------------------------------------------------
  // parse_meditation_file
  // ---------------------------------------------------------------------

  /** The parts of a meditation file. */
  datatype Meditation = Meditation(
    dateLine: string, occasionLine: string, readings: string, title: string, paragraphs: seq<string>)

  /** The first non-blank line at or after `i`, or `|lines|`. */
  function NonBlankFrom(lines: seq<string>, i: nat): (k: nat)
    requires i <= |lines|
    ensures i <= k <= |lines|
    ensures forall j | i <= j < k :: Blank(lines[j])
    ensures k < |lines| ==> !Blank(lines[k])
    decreases |lines| - i
  {
    if i < |lines| && Blank(lines[i]) then NonBlankFrom(lines, i + 1) else i
  }

  /** The text's lines after author clean-up and the Roman-numeral fixes. */
  function PreparedLines(content: string): seq<string> {
    SplitLines(FixesFrom(Join(KeptLines(SplitLines(content)), "\n"), 0))
  }

  /**
    What `parse_meditation_file` reads from the prepared lines: `None` when
    there are fewer than four lines or nothing but blank lines from the
    fourth on; otherwise the first three lines (the occasion with its year
    fixed, the readings with their numerals fixed), the first non-blank
    line after them as the title, and the paragraphs of the rest.
  */
  function MeditationOf(lines: seq<string>): (r: Option<Meditation>)
    ensures r.None? <==> |lines| < 4 || forall k | 3 <= k < |lines| :: Blank(lines[k])
    ensures r.Some? ==> r.value.title != [] && IsStripped(r.value.title)
    ensures r.Some? ==> forall k | 0 <= k < |r.value.paragraphs| :: r.value.paragraphs[k] != []
  {
    if |lines| < 4 || NonBlankFrom(lines, 3) == |lines| then None
    else
      var t := NonBlankFrom(lines, 3);
      BlankIffStripsEmpty(lines[t]);
      ParagraphsNonEmpty(lines[t + 1..]);
      Some(Meditation(Strip(lines[0]), FixYearDesignation(Strip(lines[1])), FixesFrom(Strip(lines[2]), 0),
                      Strip(lines[t]), Paragraphs(lines[t + 1..])))
  }

  /** Python `parse_meditation_file` on the text of a file. */
  method ParseMeditation(content: string) returns (m: Option<Meditation>)
    ensures m == MeditationOf(PreparedLines(content))
  {
    var cleaned := CleanAuthorLines(content);
    var fixed := FixRomanNumerals(cleaned);
    var lines := SplitLines(fixed);
    assert lines == PreparedLines(content);
    m := ParseLines(lines);
  }

  /** The `while` loops of `parse_meditation_file` that step over blank lines. */
  method SkipBlankLines(lines: seq<string>, from: nat) returns (i: nat)
    requires from <= |lines|
    ensures i == NonBlankFrom(lines, from)
  {
    i := from;
    while i < |lines| && Blank(lines[i])
      invariant from <= i <= |lines|
      invariant NonBlankFrom(lines, i) == NonBlankFrom(lines, from)
      decreases |lines| - i
    {
      i := i + 1;
    }
  }

  /** The line-by-line part of `parse_meditation_file`. */
  method ParseLines(lines: seq<string>) returns (m: Option<Meditation>)
    ensures m == MeditationOf(lines)
  {
    if |lines| < 4 {
      return None;
    }
    var dateLine := Strip(lines[0]);
    var occasionLine := FixYearDesignation(Strip(lines[1]));
    var readings := FixRomanNumerals(Strip(lines[2]));
    var titleIdx := SkipBlankLines(lines, 3);
    if titleIdx >= |lines| {
      return None;
    }
    var title := Strip(lines[titleIdx]);
    var bodyStart := SkipBlankLines(lines, titleIdx + 1);
    ParagraphsSkipBlanks(lines, titleIdx + 1, bodyStart);
    var paragraphs := BuildParagraphs(lines[bodyStart..]);
    m := Some(Meditation(dateLine, occasionLine, readings, title, paragraphs));
  }

  // ---------------------------------------------------------------------
  // process_files
  // ---------------------------------------------------------------------

  /** An entry of the site's list of meditations. */
  datatype Entry = Entry(date: string, title: string, occasion: string, season: string, year: string)

  /** A text file handed to the script: its name and its contents. */
  datatype InputFile = InputFile(name: string, content: string)

  function OrEmpty(s: Option<string>): string {
    if s.Some? then s.value else ""
  }

  /**
    The list entry for a parsed meditation: the database's occasion,
    season and year when the date is in the database (a missing field
    reads as empty), otherwise the file's own occasion line.
  */
  function EntryFor(date: string, m: Meditation, db: map<string, Seasons.LitInfo>): (e: Entry)
    ensures e.date == date && e.title == m.title
    ensures date !in db ==> e.occasion == m.occasionLine && e.season == [] && e.year == []
  {
    if date in db then
      Entry(date, m.title, OrEmpty(db[date].occasion), OrEmpty(db[date].season), OrEmpty(db[date].lectionaryYear))
    else Entry(date, m.title, m.occasionLine, "", "")
  }

  /** `{e['date'] for e in entries}`. */
  function DatesOf(entries: seq<Entry>): set<string>
    decreases |entries|
  {
    if entries == [] then {} else DatesOf(entries[..|entries| - 1]) + {entries[|entries| - 1].date}
  }

  /** The set holds the date of every entry and no other date. */
  lemma {:induction false} DatesOfMember(entries: seq<Entry>, d: string)
    ensures d in DatesOf(entries) <==> exists i | 0 <= i < |entries| :: entries[i].date == d
    decreases |entries|
  {
    if entries != [] {
      var init := entries[..|entries| - 1];
      DatesOfMember(init, d);
      if exists i | 0 <= i < |init| :: init[i].date == d {
        var i :| 0 <= i < |init| && init[i].date == d;
        assert entries[i] == init[i];
      }
      if exists i | 0 <= i < |entries| :: entries[i].date == d {
        var i :| 0 <= i < |entries| && entries[i].date == d;
        if i < |init| {
          assert init[i] == entries[i];
        }
      }
    }
  }

  /** No two entries share a date. */
  predicate UniqueDates(entries: seq<Entry>) {
    forall i, j | 0 <= i < j < |entries| :: entries[i].date != entries[j].date
  }

  /**
    The site's list after the processed entries are offered to it in
    turn: an entry joins only when no entry in the list has its date yet.
  */
  function AddNew(base: seq<Entry>, entries: seq<Entry>): seq<Entry>
    decreases |entries|
  {
    if entries == [] then base
    else
      var before := AddNew(base, entries[..|entries| - 1]);
      var e := entries[|entries| - 1];
      if e.date in DatesOf(before) then before else before + [e]
  }

  lemma AddNewStep(base: seq<Entry>, entries: seq<Entry>, e: Entry)
    ensures AddNew(base, entries + [e])
         == if e.date in DatesOf(AddNew(base, entries)) then AddNew(base, entries) else AddNew(base, entries) + [e]
  {
    assert (entries + [e])[..|entries|] == entries;
  }

  /** The list only grows, and what was there stays in place. */
  lemma {:induction false} AddNewKeepsBase(base: seq<Entry>, entries: seq<Entry>)
    ensures |base| <= |AddNew(base, entries)|
    ensures AddNew(base, entries)[..|base|] == base
    decreases |entries|
  {
    if entries != [] {
      var before := AddNew(base, entries[..|entries| - 1]);
      AddNewKeepsBase(base, entries[..|entries| - 1]);
      var e := entries[|entries| - 1];
      assert (before + [e])[..|base|] == before[..|base|];
    }
  }

  /** Every offered date ends up in the list, and no other date joins it. */
  lemma {:induction false} AddNewDates(base: seq<Entry>, entries: seq<Entry>)
    ensures DatesOf(AddNew(base, entries)) == DatesOf(base) + DatesOf(entries)
    decreases |entries|
  {
    if entries != [] {
      var init := entries[..|entries| - 1];
      var e := entries[|entries| - 1];
      var before := AddNew(base, init);
      AddNewDates(base, init);
      assert entries == init + [e];
      DatesOfAppend(init, e);
      if e.date !in DatesOf(before) {
        DatesOfAppend(before, e);
      }
    }
  }

  /** A list whose dates are unique keeps them unique. */
  lemma {:induction false} AddNewUnique(base: seq<Entry>, entries: seq<Entry>)
    requires UniqueDates(base)
    ensures UniqueDates(AddNew(base, entries))
    decreases |entries|
  {
    if entries != [] {
      var e := entries[|entries| - 1];
      var before := AddNew(base, entries[..|entries| - 1]);
      AddNewUnique(base, entries[..|entries| - 1]);
      if e.date !in DatesOf(before) {
        AppendNewDate(before, e);
      }
    }
  }

  lemma DatesOfAppend(es: seq<Entry>, e: Entry)
    ensures DatesOf(es + [e]) == DatesOf(es) + {e.date}
  {
    assert (es + [e])[..|es|] == es;
  }

  /** Appending an entry with a new date keeps the dates unique. */
  lemma AppendNewDate(all: seq<Entry>, entry: Entry)
    requires entry.date !in DatesOf(all)
    requires UniqueDates(all)
    ensures UniqueDates(all + [entry])
  {
    var r := all + [entry];
    assert forall i | 0 <= i < |all| :: r[i] == all[i];
    assert r[|all|] == entry;
    forall i | 0 <= i < |all|
      ensures all[i].date != entry.date
    {
      DatesOfMember(all, all[i].date);
    }
  }

  /** What becomes of one input file. */
  datatype Outcome = Failed | Skipped | Made(entry: Entry)

  /**
    One file's fate: an error when its name carries no date or its text
    does not parse, skipped when its date is already on the site, and
    otherwise the entry built from the parsed text.
  */
  function OutcomeOf(file: InputFile, existing: set<string>, db: map<string, Seasons.LitInfo>): (o: Outcome)
    ensures o.Made? ==> ParseFilename(file.name) == Some(o.entry.date) && o.entry.date !in existing
    ensures o.Skipped? <==> ParseFilename(file.name).Some? && ParseFilename(file.name).value in existing
    ensures ParseFilename(file.name).None? ==> o.Failed?
  {
    match ParseFilename(file.name)
    case None => Failed
    case Some(date) =>
      if date in existing then Skipped
      else match MeditationOf(PreparedLines(file.content))
        case None => Failed
        case Some(m) => Made(EntryFor(date, m, db))
  }

  /** The body of `process_files`' loop for one file, the page writing left out. */
  method ProcessFile(file: InputFile, existing: set<string>, db: map<string, Seasons.LitInfo>)
    returns (o: Outcome)
    ensures o == OutcomeOf(file, existing, db)
  {
    var date := ParseFilename(file.name);
    if date.None? {
      return Failed;
    }
    if date.value in existing {
      return Skipped;
    }
    var med := ParseMeditation(file.content);
    if med.None? {
      return Failed;
    }
    o := Made(EntryFor(date.value, med.value, db));
  }

  /** What becomes of each file, in file order. */
  function Outcomes(files: seq<InputFile>, existing: set<string>, db: map<string, Seasons.LitInfo>): (os: seq<Outcome>)
    ensures |os| == |files|
    decreases |files|
  {
    if files == [] then []
    else Outcomes(files[..|files| - 1], existing, db) + [OutcomeOf(files[|files| - 1], existing, db)]
  }

  lemma {:induction false} OutcomesAt(files: seq<InputFile>, existing: set<string>, db: map<string, Seasons.LitInfo>, k: nat)
    requires k < |files|
    ensures Outcomes(files, existing, db)[k] == OutcomeOf(files[k], existing, db)
    decreases |files|
  {
    if k < |files| - 1 {
      var init := files[..|files| - 1];
      OutcomesAt(init, existing, db, k);
      assert init[k] == files[k];
    }
  }

  /** The entries among the outcomes, in order. */
  function EntriesOf(os: seq<Outcome>): (r: seq<Entry>)
    ensures |r| <= |os|
    decreases |os|
  {
    if os == [] then []
    else
      var before := EntriesOf(os[..|os| - 1]);
      var o := os[|os| - 1];
      if o.Made? then before + [o.entry] else before
  }

  lemma EntriesOfStep(os: seq<Outcome>, n: nat)
    requires n < |os|
    ensures EntriesOf(os[..n + 1]) == if os[n].Made? then EntriesOf(os[..n]) + [os[n].entry] else EntriesOf(os[..n])
  {
    assert os[..n + 1][..n] == os[..n];
  }

  /** Every collected entry is the entry of one of the outcomes. */
  lemma {:induction false} EntriesOfFrom(os: seq<Outcome>, e: Entry)
    requires e in EntriesOf(os)
    ensures exists k | 0 <= k < |os| :: os[k] == Made(e)
    decreases |os|
  {
    var init := os[..|os| - 1];
    if e in EntriesOf(init) {
      EntriesOfFrom(init, e);
      var k :| 0 <= k < |init| && init[k] == Made(e);
      assert os[k] == init[k];
    } else {
      assert os[|os| - 1] == Made(e);
    }
  }

  /** The entries made from the files, in file order. */
  function MadeEntries(files: seq<InputFile>, existing: set<string>, db: map<string, Seasons.LitInfo>): (r: seq<Entry>)
    ensures |r| <= |files|
  {
    EntriesOf(Outcomes(files, existing, db))
  }

  /** Every entry made carries the date of a file whose name has it. */
  lemma MadeEntriesNamed(files: seq<InputFile>, existing: set<string>, db: map<string, Seasons.LitInfo>, e: Entry)
    requires e in MadeEntries(files, existing, db)
    ensures exists k | 0 <= k < |files| :: OutcomeOf(files[k], existing, db) == Made(e)
  {
    var os := Outcomes(files, existing, db);
    EntriesOfFrom(os, e);
    var k :| 0 <= k < |os| && os[k] == Made(e);
    OutcomesAt(files, existing, db, k);
    assert OutcomeOf(files[k], existing, db) == Made(e);
  }

  /** No entry is made for a date the site already has. */
  lemma MadeEntriesAreNew(files: seq<InputFile>, existing: set<string>, db: map<string, Seasons.LitInfo>, e: Entry)
    requires e in MadeEntries(files, existing, db)
    ensures e.date !in existing
  {
    MadeEntriesNamed(files, existing, db, e);
  }

  /**
    Python `process_files`: each file is an error, skipped, or processed
    into an entry; a processed entry joins the site's list only when no
    entry there has its date yet.
  */
  method ProcessFiles(files: seq<InputFile>, existing: set<string>, allData: seq<Entry>,
                      db: map<string, Seasons.LitInfo>)
    returns (processed: seq<Entry>, skipped: seq<string>, errors: seq<string>, all: seq<Entry>)
    ensures |processed| + |skipped| + |errors| == |files|
    ensures processed == MadeEntries(files, existing, db)
    ensures all == AddNew(allData, processed)
  {
    processed, skipped, errors, all := [], [], [], allData;
    var dataDates := DatesOf(allData);
    ghost var fates := Outcomes(files, existing, db);
    for n := 0 to |files|
      invariant |processed| + |skipped| + |errors| == n
      invariant processed == EntriesOf(fates[..n])
      invariant dataDates == DatesOf(all)
      invariant all == AddNew(allData, processed)
    {
      var o := FateOf(files, n, existing, db);
      EntriesOfStep(fates, n);
      if o.Failed? {
        errors := errors + [files[n].name];
      } else if o.Skipped? {
        skipped := skipped + [files[n].name];
      } else {
        all, dataDates := Admit(allData, processed, all, dataDates, o.entry);
        processed := processed + [o.entry];
      }
    }
    assert fates[..|files|] == fates;
  }

  /** One turn of the loop: `process_file` on the `n`-th file. */
  method FateOf(files: seq<InputFile>, n: nat, existing: set<string>, db: map<string, Seasons.LitInfo>)
    returns (o: Outcome)
    requires n < |files|
    ensures o == Outcomes(files, existing, db)[n]
  {
    o := ProcessFile(files[n], existing, db);
    OutcomesAt(files, existing, db, n);
  }

  /**
    The `if entry['date'] not in data_dates` step, keeping the date set in
    step with the list.
  */
  method Admit(allData: seq<Entry>, processed: seq<Entry>, all: seq<Entry>, dataDates: set<string>, entry: Entry)
    returns (all': seq<Entry>, dataDates': set<string>)
    requires all == AddNew(allData, processed) && dataDates == DatesOf(all)
    ensures all' == AddNew(allData, processed + [entry])
    ensures dataDates' == DatesOf(all')
  {
    AddNewStep(allData, processed, entry);
    all', dataDates' := all, dataDates;
    if entry.date !in dataDates {
      DatesOfAppend(all, entry);
      all' := all + [entry];
      dataDates' := dataDates + {entry.date};
    }
  }
}
