/**
  The title clean-up of `fix_titles.py`: the whitespace and underscore
  repairs, the word-by-word title casing with its exceptions (Roman
  numerals, minor words, contractions, hyphenated words, punctuation kept
  around each word), the change notes of `fix_title` and the warnings of
  `check_for_issues`.
*/
module TitleCase {
  import opened Text
  import opened Scan

  /** `LOWERCASE_WORDS`: kept in lower case unless first or after a clause break. */
  predicate IsMinorWord(w: string) {
    w == "a" || w == "an" || w == "the" || w == "and" || w == "but" || w == "or"
    || w == "for" || w == "nor" || w == "on" || w == "at" || w == "to" || w == "from"
    || w == "by" || w == "of" || w == "in" || w == "with" || w == "as" || w == "is"
    || w == "it" || w == "vs" || w == "yet" || w == "so"
  }

  /** The numerals `I` to `X` the casing keeps in capitals. */
  predicate IsRomanNumeral(w: string) {
    w == "I" || w == "II" || w == "III" || w == "IV" || w == "V"
    || w == "VI" || w == "VII" || w == "VIII" || w == "IX" || w == "X"
  }

  // ---------------------------------------------------------------------
  // The clean-up passes before the split into words
  // ---------------------------------------------------------------------

  /** No whitespace character stands right before an occurrence of `c`. */
  predicate NoSpaceBefore(s: string, c: char) {
    forall k | 1 <= k < |s| :: s[k] == c ==> !IsSpace(s[k - 1])
  }

  /** No two whitespace characters stand next to each other. */
  predicate SingleSpaced(s: string) {
    forall k | 1 <= k < |s| :: IsSpace(s[k - 1]) ==> !IsSpace(s[k])
  }

  lemma NoSpaceBeforeConcat(a: string, b: string, c: char)
    requires NoSpaceBefore(a, c) && NoSpaceBefore(b, c)
    requires a != [] && b != [] && b[0] == c ==> !IsSpace(a[|a| - 1])
    ensures NoSpaceBefore(a + b, c)
  {
    forall k | 1 <= k < |a + b| && (a + b)[k] == c
      ensures !IsSpace((a + b)[k - 1])
    {
      if k > |a| {
        assert (a + b)[k] == b[k - |a|] && (a + b)[k - 1] == b[k - 1 - |a|];
      } else if k == |a| {
        assert (a + b)[k] == b[0];
      }
    }
  }

  lemma NoSpaceBeforeSlice(s: string, c: char, i: nat, j: nat)
    requires i <= j <= |s| && NoSpaceBefore(s, c)
    ensures NoSpaceBefore(s[i..j], c)
  {
    forall k | 1 <= k < j - i && s[i..j][k] == c
      ensures !IsSpace(s[i..j][k - 1])
    {
      assert s[i..j][k] == s[i + k] && s[i..j][k - 1] == s[i + k - 1];
    }
  }

  lemma SingleSpacedConcat(a: string, b: string)
    requires SingleSpaced(a) && SingleSpaced(b)
    requires a != [] && b != [] ==> !IsSpace(a[|a| - 1]) || !IsSpace(b[0])
    ensures SingleSpaced(a + b)
  {
    forall k | 1 <= k < |a + b| && IsSpace((a + b)[k - 1])
      ensures !IsSpace((a + b)[k])
    {
      if k > |a| {
        assert (a + b)[k] == b[k - |a|] && (a + b)[k - 1] == b[k - 1 - |a|];
      } else if k == |a| {
        assert (a + b)[k] == b[0];
      }
    }
  }

  lemma SingleSpacedSlice(s: string, i: nat, j: nat)
    requires i <= j <= |s| && SingleSpaced(s)
    ensures SingleSpaced(s[i..j])
  {
    forall k | 1 <= k < j - i && IsSpace(s[i..j][k - 1])
      ensures !IsSpace(s[i..j][k])
    {
      assert s[i..j][k] == s[i + k] && s[i..j][k - 1] == s[i + k - 1];
    }
  }

  /** The characters of `s` other than whitespace, in order. */
  function WithoutSpaces(s: string): (r: string)
    ensures |r| <= |s|
    decreases |s|
  {
    if s == [] then []
    else if IsSpace(s[0]) then WithoutSpaces(s[1..])
    else [s[0]] + WithoutSpaces(s[1..])
  }

  lemma {:induction false} WithoutSpacesAppend(a: string, b: string)
    ensures WithoutSpaces(a + b) == WithoutSpaces(a) + WithoutSpaces(b)
    decreases |a|
  {
    if a != [] {
      var ab := a + b;
      assert ab[0] == a[0] && ab[1..] == a[1..] + b;
      WithoutSpacesAppend(a[1..], b);
      if !IsSpace(a[0]) {
        assert WithoutSpaces(ab) == [a[0]] + WithoutSpaces(a[1..] + b);
        assert WithoutSpaces(a) == [a[0]] + WithoutSpaces(a[1..]);
      }
    } else {
      assert a + b == b;
    }
  }

  lemma {:induction false} WithoutSpacesAllSpace(s: string)
    requires AllSpace(s)
    ensures WithoutSpaces(s) == []
    decreases |s|
  {
    if s != [] {
      WithoutSpacesAllSpace(s[1..]);
    }
  }

  /** A whitespace run in front carries no text. */
  lemma SpacesText(s: string, j: nat)
    requires j <= |s| && AllSpace(s[..j])
    ensures WithoutSpaces(s) == WithoutSpaces(s[j..])
  {
    WithoutSpacesAllSpace(s[..j]);
    assert s == s[..j] + s[j..];
    WithoutSpacesAppend(s[..j], s[j..]);
  }

  /** A whitespace run at the end carries no text. */
  lemma SpacesTextAtEnd(s: string, j: nat)
    requires j <= |s| && AllSpace(s[j..])
    ensures WithoutSpaces(s) == WithoutSpaces(s[..j])
  {
    WithoutSpacesAllSpace(s[j..]);
    assert s == s[..j] + s[j..];
    WithoutSpacesAppend(s[..j], s[j..]);
  }

  /** Keeping the first character and the text of the rest keeps the text. */
  lemma HeadText(s: string, rest: string)
    requires s != [] && WithoutSpaces(rest) == WithoutSpaces(s[1..])
    ensures WithoutSpaces([s[0]] + rest) == WithoutSpaces(s)
  {
    WithoutSpacesAppend([s[0]], rest);
    WithoutSpacesAppend([s[0]], s[1..]);
    assert [s[0]] + s[1..] == s;
  }

  /** Replacing a leading whitespace run by another keeps the text. */
  lemma GapText(s: string, j: nat, gap: string, rest: string)
    requires j <= |s| && AllSpace(s[..j]) && AllSpace(gap)
    requires WithoutSpaces(rest) == WithoutSpaces(s[j..])
    ensures WithoutSpaces(gap + rest) == WithoutSpaces(s)
  {
    SpacesText(s, j);
    WithoutSpacesAllSpace(gap);
    WithoutSpacesAppend(gap, rest);
  }

  /** Whitespace removed from the ends leaves the other characters as they were. */
  lemma StripKeepsText(s: string)
    ensures WithoutSpaces(Strip(s)) == WithoutSpaces(s)
  {
    var l := LStrip(s);
    SpacesText(s, |s| - |l|);
    SpacesTextAtEnd(l, |RStrip(l)|);
  }

  /** The index after the run of `c` that starts at `i`. */
  function SkipRun(t: string, i: nat, c: char): (j: nat)
    requires i <= |t|
    ensures i <= j <= |t|
    ensures forall k | i <= k < j :: t[k] == c
    ensures j < |t| ==> t[j] != c
    decreases |t| - i
  {
    if i < |t| && t[i] == c then SkipRun(t, i + 1, c) else i
  }

  /** `re.sub(r'_+', ' / ', s)`: each run of underscores becomes `" / "`. */
  function SlashUnderscores(s: string): (r: string)
    ensures '_' !in r
    ensures '_' !in s ==> r == s
    decreases |s|
  {
    if s == [] then []
    else if s[0] != '_' then
      assert '_' !in s ==> '_' !in s[1..];
      assert s == [s[0]] + s[1..];
      [s[0]] + SlashUnderscores(s[1..])
    else " / " + SlashUnderscores(s[SkipRun(s, 0, '_')..])
  }

  /** A string is its first character followed by the rest, and the rest holds only its characters. */
  lemma HeadPieces(s: string)
    requires s != []
    ensures [s[0]] + s[1..] == s
    ensures forall x | x in s[1..] :: x in s
  {
  }

  /** A string is its prefix followed by its suffix, and both hold only its characters. */
  lemma PrefixSuffix(s: string, j: nat)
    requires j <= |s|
    ensures s[..j] + s[j..] == s && s[..j] == s[0..j]
    ensures forall x | x in s[..j] :: x in s
    ensures forall x | x in s[j..] :: x in s
  {
  }

  lemma Uncons(a: string, t: string)
    requires a != []
    ensures (a + t)[0] == a[0] && (a + t)[1..] == a[1..] + t
  {
  }

  lemma Recons(a: string, c: string)
    requires a != []
    ensures [a[0]] + (a[1..] + c) == a + c
  {
    assert [a[0]] + a[1..] == a;
  }

  lemma NoSpaceTail(a: string)
    requires a != [] && NoSpace(a)
    ensures NoSpace(a[1..])
  {
    forall i | 0 <= i < |a[1..]| ensures !IsSpace(a[1..][i]) { assert a[1..][i] == a[i + 1]; }
  }

  /** Text without underscores passes through unchanged, and the rest is rewritten after it. */
  lemma {:induction false} SlashPlain(a: string, t: string)
    requires '_' !in a
    ensures SlashUnderscores(a + t) == a + SlashUnderscores(t)
    decreases |a|
  {
    if a != [] {
      var at := a + t;
      Uncons(a, t);
      assert '_' !in a[1..] by { assert forall x | x in a[1..] :: x in a; }
      calc {
        SlashUnderscores(at);
        == { assert at[0] != '_'; }
        [a[0]] + SlashUnderscores(a[1..] + t);
        == { SlashPlain(a[1..], t); }
        [a[0]] + (a[1..] + SlashUnderscores(t));
        == { Recons(a, SlashUnderscores(t)); }
        a + SlashUnderscores(t);
      }
    } else {
      assert a + t == t;
    }
  }

  /** A whole run of underscores, however long, becomes one `" / "`. */
  lemma SlashRun(a: string, u: string, b: string)
    requires '_' !in a && u != [] && forall k | 0 <= k < |u| :: u[k] == '_'
    requires b == [] || b[0] != '_'
    ensures SlashUnderscores(a + u + b) == a + " / " + SlashUnderscores(b)
  {
    var t := u + b;
    assert a + u + b == a + t;
    SlashPlain(a, t);
    assert forall k | 0 <= k < |u| :: t[k] == u[k];
    assert |u| < |t| ==> t[|u|] == b[0];
    assert SkipRun(t, 0, '_') == |u|;
    assert t[|u|..] == b;
    assert t[0] == '_';
  }

  /** `re.sub(r'\s+c', 'c', s)`: every whitespace run right before a `c` is removed. */
  function DropSpaceBefore(s: string, c: char): (r: string)
    requires !IsSpace(c)
    ensures |r| <= |s|
    ensures s != [] && !IsSpace(s[0]) ==> r != [] && r[0] == s[0]
    ensures forall x | x in r :: x in s
    ensures NoSpaceBefore(r, c)
    ensures WithoutSpaces(r) == WithoutSpaces(s)
    ensures c !in s ==> r == s
    decreases |s|
  {
    if s == [] then []
    else if !IsSpace(s[0]) then
      var rest := DropSpaceBefore(s[1..], c);
      NoSpaceBeforeConcat([s[0]], rest, c);
      HeadPieces(s);
      HeadText(s, rest);
      [s[0]] + rest
    else
      var j := SkipSpaces(s, 0);
      var rest := DropSpaceBefore(s[j..], c);
      PrefixSuffix(s, j);
      if j < |s| && s[j] == c then
        GapText(s, j, [], rest);
        assert [] + rest == rest;
        rest
      else
        NoSpaceBeforeConcat(s[..j], rest, c);
        GapText(s, j, s[..j], rest);
        s[..j] + rest
  }


  /** The end of a leading whitespace run. */
  lemma SkipGap(g: string, t: string)
    requires AllSpace(g) && (t == [] || !IsSpace(t[0]))
    ensures SkipSpaces(g + t, 0) == |g|
    ensures (g + t)[..|g|] == g && (g + t)[|g|..] == t
  {
    var s := g + t;
    assert forall k | 0 <= k < |g| :: s[k] == g[k];
    assert |g| < |s| ==> s[|g|] == t[0];
  }

  lemma DropHead(s: string, c: char)
    requires !IsSpace(c) && s != [] && !IsSpace(s[0])
    ensures DropSpaceBefore(s, c) == [s[0]] + DropSpaceBefore(s[1..], c)
  {
  }

  /** Text without whitespace passes through unchanged, and the rest is cleaned after it. */
  lemma {:induction false} DropPlain(a: string, t: string, c: char)
    requires !IsSpace(c) && NoSpace(a)
    ensures DropSpaceBefore(a + t, c) == a + DropSpaceBefore(t, c)
    decreases |a|
  {
    if a != [] {
      var at := a + t;
      Uncons(a, t);
      NoSpaceTail(a);
      calc {
        DropSpaceBefore(at, c);
        == { DropHead(at, c); }
        [a[0]] + DropSpaceBefore(a[1..] + t, c);
        == { DropPlain(a[1..], t, c); }
        [a[0]] + (a[1..] + DropSpaceBefore(t, c));
        == { Recons(a, DropSpaceBefore(t, c)); }
        a + DropSpaceBefore(t, c);
      }
    } else {
      assert a + t == t;
    }
  }

  /** A whitespace run goes exactly when `c` follows it. */
  lemma DropGap(g: string, t: string, c: char)
    requires !IsSpace(c) && g != [] && AllSpace(g) && (t == [] || !IsSpace(t[0]))
    ensures DropSpaceBefore(g + t, c) == (if t != [] && t[0] == c then [] else g) + DropSpaceBefore(t, c)
  {
    SkipGap(g, t);
    assert (g + t)[0] == g[0];
  }

  /** Removing spaces before one mark never puts a space before another. */
  lemma {:induction false} DropKeeps(s: string, c: char, d: char)
    requires !IsSpace(c) && !IsSpace(d) && NoSpaceBefore(s, d)
    ensures NoSpaceBefore(DropSpaceBefore(s, c), d)
    decreases |s|
  {
    if s != [] {
      if !IsSpace(s[0]) {
        NoSpaceBeforeSlice(s, d, 1, |s|);
        assert s[1..|s|] == s[1..];
        DropKeeps(s[1..], c, d);
        NoSpaceBeforeConcat([s[0]], DropSpaceBefore(s[1..], c), d);
      } else {
        var j := SkipSpaces(s, 0);
        NoSpaceBeforeSlice(s, d, j, |s|);
        assert s[j..|s|] == s[j..];
        DropKeeps(s[j..], c, d);
        if !(j < |s| && s[j] == c) {
          assert s[..j] == s[0..j];
          NoSpaceBeforeConcat(s[..j], DropSpaceBefore(s[j..], c), d);
        }
      }
    }
  }

  /** `re.sub(r'\s{2,}', ' ', s)`: a whitespace run of two or more becomes one space. */
  function CollapseSpaces(s: string): (r: string)
    ensures |r| <= |s|
    ensures s != [] && !IsSpace(s[0]) ==> r != [] && r[0] == s[0]
    ensures forall x | x in r :: x in s || x == ' '
    ensures SingleSpaced(r)
    ensures WithoutSpaces(r) == WithoutSpaces(s)
    decreases |s|
  {
    if s == [] then []
    else if !IsSpace(s[0]) then
      var rest := CollapseSpaces(s[1..]);
      SingleSpacedConcat([s[0]], rest);
      HeadPieces(s);
      HeadText(s, rest);
      [s[0]] + rest
    else
      var j := SkipSpaces(s, 0);
      var rest := CollapseSpaces(s[j..]);
      var gap := if j >= 2 then " " else s[..1];
      assert IsSpace(gap[0]) && |gap| == 1;
      assert rest != [] ==> !IsSpace(rest[0]);
      SingleSpacedConcat(gap, rest);
      PrefixSuffix(s, j);
      assert forall x | x in gap :: x in s || x == ' ';
      GapText(s, j, gap, rest);
      gap + rest
  }

  lemma CollapseHead(s: string)
    requires s != [] && !IsSpace(s[0])
    ensures CollapseSpaces(s) == [s[0]] + CollapseSpaces(s[1..])
  {
  }

  /** Text without whitespace passes through unchanged, and the rest is collapsed after it. */
  lemma {:induction false} CollapsePlain(a: string, t: string)
    requires NoSpace(a)
    ensures CollapseSpaces(a + t) == a + CollapseSpaces(t)
    decreases |a|
  {
    if a != [] {
      var at := a + t;
      Uncons(a, t);
      NoSpaceTail(a);
      calc {
        CollapseSpaces(at);
        == { CollapseHead(at); }
        [a[0]] + CollapseSpaces(a[1..] + t);
        == { CollapsePlain(a[1..], t); }
        [a[0]] + (a[1..] + CollapseSpaces(t));
        == { Recons(a, CollapseSpaces(t)); }
        a + CollapseSpaces(t);
      }
    } else {
      assert a + t == t;
    }
  }

  /** A run of two or more whitespace characters becomes one space; a single one is kept. */
  lemma CollapseGap(g: string, t: string)
    requires g != [] && AllSpace(g) && (t == [] || !IsSpace(t[0]))
    ensures CollapseSpaces(g + t) == (if |g| >= 2 then " " else g) + CollapseSpaces(t)
  {
    SkipGap(g, t);
    assert (g + t)[0] == g[0];
    assert |g| == 1 ==> (g + t)[..1] == g;
  }

  /** Collapsing whitespace never puts a space before a mark that had none. */
  lemma {:induction false} CollapseKeeps(s: string, d: char)
    requires !IsSpace(d) && NoSpaceBefore(s, d)
    ensures NoSpaceBefore(CollapseSpaces(s), d)
    decreases |s|
  {
    if s != [] {
      if !IsSpace(s[0]) {
        NoSpaceBeforeSlice(s, d, 1, |s|);
        assert s[1..|s|] == s[1..];
        CollapseKeeps(s[1..], d);
        NoSpaceBeforeConcat([s[0]], CollapseSpaces(s[1..]), d);
      } else {
        var j := SkipSpaces(s, 0);
        NoSpaceBeforeSlice(s, d, j, |s|);
        assert s[j..|s|] == s[j..];
        CollapseKeeps(s[j..], d);
        var gap := if j >= 2 then " " else s[..1];
        if j < |s| {
          assert IsSpace(s[j - 1]) by {
            assert s[0..j][j - 1] == s[j - 1];
          }
        }
        NoSpaceBeforeConcat(gap, CollapseSpaces(s[j..]), d);
      }
    }
  }

  /** Stripping keeps both properties: it only cuts off the ends. */
  lemma StripKeeps(s: string, d: char)
    requires NoSpaceBefore(s, d) && SingleSpaced(s)
    ensures NoSpaceBefore(Strip(s), d) && SingleSpaced(Strip(s))
  {
    var l := LStrip(s);
    NoSpaceBeforeSlice(s, d, |s| - |l|, |s|);
    SingleSpacedSlice(s, |s| - |l|, |s|);
    NoSpaceBeforeSlice(l, d, 0, |RStrip(l)|);
    SingleSpacedSlice(l, 0, |RStrip(l)|);
  }

  /**
    The text `smart_title_case` splits into words: underscore lines turned
    into `" / "` (only when the title holds five underscores in a row),
    whitespace before `!` and `?` removed, whitespace runs collapsed, ends
    stripped.
  */
  function Cleaned(title: string): (t: string)
    ensures IsStripped(t) && SingleSpaced(t)
    ensures NoSpaceBefore(t, '!') && NoSpaceBefore(t, '?')
    ensures Contains(title, "_____") ==> '_' !in t
    ensures Contains(title, "_____") ==> WithoutSpaces(t) == WithoutSpaces(SlashUnderscores(title))
    ensures !Contains(title, "_____") ==> WithoutSpaces(t) == WithoutSpaces(title)
  {
    var t0 := if Contains(title, "_____") then SlashUnderscores(title) else title;
    CleanSteps(t0);
    Strip(CollapseSpaces(DropSpaceBefore(DropSpaceBefore(t0, '!'), '?')))
  }

  /** The clean-up after the underscore line: marks pulled in, runs collapsed, ends stripped. */
  lemma CleanSteps(t0: string)
    ensures var t := Strip(CollapseSpaces(DropSpaceBefore(DropSpaceBefore(t0, '!'), '?')));
      IsStripped(t) && SingleSpaced(t) && NoSpaceBefore(t, '!') && NoSpaceBefore(t, '?')
      && ('_' !in t0 ==> '_' !in t) && WithoutSpaces(t) == WithoutSpaces(t0)
  {
    var t1 := DropSpaceBefore(t0, '!');
    var t2 := DropSpaceBefore(t1, '?');
    DropKeeps(t1, '?', '!');
    var t3 := CollapseSpaces(t2);
    CollapseKeeps(t2, '!');
    CollapseKeeps(t2, '?');
    StripKeeps(t3, '!');
    StripKeeps(t3, '?');
    StripKeepsText(t3);
    if '_' !in t0 {
      assert '_' !in t1;
      assert '_' !in t2;
      assert '_' !in t3;
      StripFreeOf(t3, '_');
    }
  }

  // ---------------------------------------------------------------------
  // One word: punctuation around a core
  // ---------------------------------------------------------------------

  /** Leading punctuation peeled off a word: `"`, `'` and `(`. */
  predicate IsLeadPunct(c: char) {
    c == '"' || c == '\'' || c == '('
  }

  /** Trailing punctuation peeled off a word: `"`, `'`, `)`, `.`, `,`, `!`, `?`, `;`, `:`. */
  predicate IsTrailPunct(c: char) {
    c == '"' || c == '\'' || c == ')' || c == '.' || c == ',' || c == '!' || c == '?' || c == ';' || c == ':'
  }

  predicate AllLead(s: string) {
    forall k | 0 <= k < |s| :: IsLeadPunct(s[k])
  }

  predicate AllTrail(s: string) {
    forall k | 0 <= k < |s| :: IsTrailPunct(s[k])
  }

  /** The end of the run of leading punctuation that starts at `i`. */
  function LeadEnd(w: string, i: nat): (n: nat)
    requires i <= |w|
    ensures i <= n <= |w|
    ensures forall k | i <= k < n :: IsLeadPunct(w[k])
    ensures n < |w| ==> !IsLeadPunct(w[n])
    decreases |w| - i
  {
    if i < |w| && IsLeadPunct(w[i]) then LeadEnd(w, i + 1) else i
  }

  /** The start of the run of trailing punctuation that ends at `e`, not going below `lo`. */
  function CoreEnd(w: string, lo: nat, e: nat): (c: nat)
    requires lo <= e <= |w|
    ensures lo <= c <= e
    ensures forall k | c <= k < e :: IsTrailPunct(w[k])
    ensures c > lo ==> !IsTrailPunct(w[c - 1])
    decreases e
  {
    if e > lo && IsTrailPunct(w[e - 1]) then CoreEnd(w, lo, e - 1) else e
  }

  /** A word cut into leading punctuation, core and trailing punctuation. */
  datatype Pieces = Pieces(lead: string, core: string, trail: string)

  /**
    The cut of `smart_title_case`: the longest run of leading punctuation,
    then, in what is left, the longest run of trailing punctuation.
  */
  function Peel(word: string): (p: Pieces)
    ensures p.lead + p.core + p.trail == word
    ensures AllLead(p.lead) && AllTrail(p.trail)
    ensures p.core != [] ==> !IsLeadPunct(p.core[0]) && !IsTrailPunct(p.core[|p.core| - 1])
    ensures p.core == [] && p.trail != [] ==> !IsLeadPunct(p.trail[0])
  {
    var n := LeadEnd(word, 0);
    var e := CoreEnd(word, n, |word|);
    var p := Pieces(word[..n], word[n..e], word[e..]);
    PeelSlices(word, n, e, p);
    p
  }

  lemma PeelSlices(word: string, n: nat, e: nat, p: Pieces)
    requires n <= e <= |word|
    requires p == Pieces(word[..n], word[n..e], word[e..])
    requires forall k | 0 <= k < n :: IsLeadPunct(word[k])
    requires n < |word| ==> !IsLeadPunct(word[n])
    requires forall k | e <= k < |word| :: IsTrailPunct(word[k])
    requires e > n ==> !IsTrailPunct(word[e - 1])
    ensures p.lead + p.core + p.trail == word
    ensures AllLead(p.lead) && AllTrail(p.trail)
    ensures p.core != [] ==> !IsLeadPunct(p.core[0]) && !IsTrailPunct(p.core[|p.core| - 1])
    ensures p.core == [] && p.trail != [] ==> !IsLeadPunct(p.trail[0])
  {
    assert word[..n] + word[n..e] + word[e..] == word;
    forall k | 0 <= k < |word[e..]| ensures IsTrailPunct(word[e..][k]) {
      assert word[e..][k] == word[e + k];
    }
    forall k | 0 <= k < n ensures IsLeadPunct(word[..n][k]) {
      assert word[..n][k] == word[k];
    }
  }

  /** The first `while` loop of `smart_title_case`: leading punctuation moved off the word. */
  method PeelLeading(word: string) returns (lead: string, core: string)
    ensures lead == word[..LeadEnd(word, 0)] && core == word[LeadEnd(word, 0)..]
  {
    lead := [];
    core := word;
    while core != [] && IsLeadPunct(core[0])
      invariant |lead| <= LeadEnd(word, 0)
      invariant lead == word[..|lead|] && core == word[|lead|..]
      decreases |core|
    {
      assert word[..|lead| + 1] == word[..|lead|] + [word[|lead|]];
      lead := lead + [core[0]];
      core := core[1..];
    }
  }

  /** The second `while` loop: trailing punctuation moved off what is left. */
  method PeelTrailing(word: string, n: nat) returns (core: string, trail: string)
    requires n <= |word|
    ensures core == word[n..CoreEnd(word, n, |word|)] && trail == word[CoreEnd(word, n, |word|)..]
  {
    core := word[n..];
    trail := [];
    ghost var m := |word|;
    while core != [] && IsTrailPunct(core[|core| - 1])
      invariant n <= m <= |word| && CoreEnd(word, n, m) == CoreEnd(word, n, |word|)
      invariant core == word[n..m] && trail == word[m..]
      decreases |core|
    {
      TrailStep(word, n, m);
      trail := [core[|core| - 1]] + trail;
      core := core[..|core| - 1];
      m := m - 1;
    }
  }

  /** Moving the last character of `word[n..m]` to the front of `word[m..]`. */
  lemma TrailStep(word: string, n: nat, m: nat)
    requires n < m <= |word|
    ensures word[n..m][|word[n..m]| - 1] == word[m - 1]
    ensures word[n..m][..|word[n..m]| - 1] == word[n..m - 1]
    ensures [word[n..m][|word[n..m]| - 1]] + word[m..] == word[m - 1..]
  {
  }

  /** The two `while` loops of `smart_title_case` that peel punctuation off a word. */
  method PeelWord(word: string) returns (lead: string, core: string, trail: string)
    ensures Pieces(lead, core, trail) == Peel(word)
  {
    lead, core := PeelLeading(word);
    core, trail := PeelTrailing(word, |lead|);
  }

  // ---------------------------------------------------------------------
  // Casing the core of a word
  // ---------------------------------------------------------------------

  predicate IsDash(c: char) {
    c == '-' || c == '–' || c == '—'
  }

  predicate HasDash(s: string) {
    exists k | 0 <= k < |s| :: IsDash(s[k])
  }

  /** The index of the first dash at or after `i`, or `|s|`. */
  function DashFrom(s: string, i: nat): (d: nat)
    requires i <= |s|
    ensures i <= d <= |s|
    ensures forall k | i <= k < d :: !IsDash(s[k])
    ensures d < |s| ==> IsDash(s[d])
    decreases |s| - i
  {
    if i == |s| || IsDash(s[i]) then i else DashFrom(s, i + 1)
  }

  /**
    `re.split(r'([-–—])', core)`, each part capitalised and each dash kept:
    a letter is upper-cased at the start of the core or right after a
    dash, and lower-cased everywhere else.
  */
  function DashCase(s: string): (r: string)
    ensures DashCased(s, r)
    decreases |s|
  {
    var d := DashFrom(s, 0);
    if d == |s| then Capitalize(s)
    else
      var rest := DashCase(s[d + 1..]);
      DashCaseStep(s, d, rest);
      Capitalize(s[..d]) + [s[d]] + rest
  }

  /** `r` has the letters of `s`, upper-cased at the start and after each dash, lower-cased elsewhere. */
  predicate DashCased(s: string, r: string) {
    |r| == |s| &&
    forall k {:trigger r[k]} | 0 <= k < |s| :: r[k] == if k == 0 || IsDash(s[k - 1]) then ToUpperChar(s[k]) else ToLowerChar(s[k])
  }

  lemma DashCasedAt(s: string, r: string, j: nat)
    requires DashCased(s, r) && j < |s|
    ensures r[j] == if j == 0 || IsDash(s[j - 1]) then ToUpperChar(s[j]) else ToLowerChar(s[j])
  {
  }

  lemma DashCaseStep(s: string, d: nat, rest: string)
    requires d < |s| && IsDash(s[d]) && forall k | 0 <= k < d :: !IsDash(s[k])
    requires DashCased(s[d + 1..], rest)
    ensures DashCased(s, Capitalize(s[..d]) + [s[d]] + rest)
  {
    var r := Capitalize(s[..d]) + [s[d]] + rest;
    forall k | 0 <= k < |s|
      ensures r[k] == if k == 0 || IsDash(s[k - 1]) then ToUpperChar(s[k]) else ToLowerChar(s[k])
    {
      if k > d {
        var t := s[d + 1..];
        assert r[k] == rest[k - d - 1];
        DashCasedAt(t, rest, k - d - 1);
        assert s[d + 1..][k - d - 1] == s[k];
        if k > d + 1 {
          assert s[d + 1..][k - d - 2] == s[k - 1];
        }
      } else if k < d {
        assert s[..d][k] == s[k];
        if k > 0 {
          assert s[..d][k - 1] == s[k - 1];
        }
      }
    }
  }

  /** The first apostrophe in `s`. */
  function Apostrophe(s: string): (a: nat)
    requires '\'' in s
    ensures a < |s| && s[a] == '\''
    ensures forall k | 0 <= k < a :: s[k] != '\''
  {
    var a := SkipRunNot(s, 0, '\'');
    assert exists k | 0 <= k < |s| :: s[k] == '\'';
    a
  }

  /** The index of the first `c` at or after `i`, or `|t|`. */
  function SkipRunNot(t: string, i: nat, c: char): (j: nat)
    requires i <= |t|
    ensures i <= j <= |t|
    ensures forall k | i <= k < j :: t[k] != c
    ensures j < |t| ==> t[j] == c
    decreases |t| - i
  {
    if i < |t| && t[i] != c then SkipRunNot(t, i + 1, c) else i
  }

  /**
    A core holding an apostrophe: `re.split(r"(['']\w*)", core)` gives
    parts that concatenate back to the core, the first being everything
    before the first apostrophe; that part is capitalised and all the
    others lower-cased. The outcome is plain `capitalize()`, or all lower
    case when the core starts with the apostrophe.
  */
  function ContractionCase(core: string): (r: string)
    requires '\'' in core
    ensures r == if core[0] == '\'' then Lower(core) else Capitalize(core)
  {
    var a := Apostrophe(core);
    CapitalizeThenLower(core, a);
    Capitalize(core[..a]) + Lower(core[a..])
  }

  /** Capitalising a prefix and lower-casing the rest capitalises the whole, or lowers it when the prefix is empty. */
  lemma CapitalizeThenLower(s: string, a: nat)
    requires a <= |s|
    ensures Capitalize(s[..a]) + Lower(s[a..]) == if a == 0 then Lower(s) else Capitalize(s)
  {
    if a == 0 {
      assert s[..a] == [] && s[a..] == s;
    } else {
      CapitalizeThenLowerAt(s, a);
    }
  }

  lemma CapitalizeThenLowerAt(s: string, a: nat)
    requires 0 < a <= |s|
    ensures Capitalize(s[..a]) + Lower(s[a..]) == Capitalize(s)
  {
    var h, t := s[..a], s[a..];
    var p, q := Capitalize(h), Lower(t);
    var r, c := p + q, Capitalize(s);
    assert r[0] == p[0] == ToUpperChar(h[0]) == ToUpperChar(s[0]);
    forall k | 1 <= k < |r| ensures r[k] == c[k] {
      if k < a {
        assert r[k] == p[k] == ToLowerChar(h[k]) && h[k] == s[k];
      } else {
        assert r[k] == q[k - a] == ToLowerChar(t[k - a]) && t[k - a] == s[k];
      }
    }
  }

  /** The previous result word ends a clause: after `rstrip()`, its last character is `:`, `—` or `–`. */
  predicate EndsClause(w: string) {
    var t := RStrip(w);
    t != [] && (t[|t| - 1] == ':' || t[|t| - 1] == '—' || t[|t| - 1] == '–')
  }

  /** Case changes leave the lower-case form alone. */
  lemma CaseFolds(s: string)
    ensures Lower(Upper(s)) == Lower(s)
    ensures Lower(Capitalize(s)) == Lower(s)
    ensures Lower(Lower(s)) == Lower(s)
  {
    LowerIdempotent(s);
  }

  /**
    The casing of one core (`core_word`) at word position `i` of `count`
    words, `result` holding the words already produced: Roman numerals in
    capitals, minor words in lower case unless first or after a clause
    break, contractions and hyphenated words by their own rules, every
    other word capitalised. Only letter case ever changes.
  */
  function CaseCore(core: string, i: nat, count: nat, result: seq<string>): (r: string)
    ensures |r| == |core| && Lower(r) == Lower(core)
    ensures IsRomanNumeral(Upper(core)) ==> r == Upper(core)
    ensures !IsRomanNumeral(Upper(core)) && i > 0 && IsMinorWord(Lower(core)) && result != []
      ==> (r == Lower(core) <==> !EndsClause(result[|result| - 1]))
  {
    CaseFolds(core);
    if IsRomanNumeral(Upper(core)) then
      if Upper(core) == "I" && count > 1 then "I" else Upper(core)
    else if i > 0 && IsMinorWord(Lower(core)) then
      if result != [] && !EndsClause(result[|result| - 1]) then Lower(core)
      else
        assert Capitalize(core) != Lower(core) by {
          assert core != [];
          MinorWordCapitalized(core);
        }
        Capitalize(core)
    else if '\'' in core then ContractionCase(core)
    else if HasDash(core) then
      DashCaseFolds(core);
      DashCase(core)
    else Capitalize(core)
  }

  lemma CharFolds(c: char)
    ensures ToLowerChar(ToUpperChar(c)) == ToLowerChar(c)
    ensures ToLowerChar(ToLowerChar(c)) == ToLowerChar(c)
  {
  }

  lemma DashCaseFolds(s: string)
    ensures Lower(DashCase(s)) == Lower(s)
  {
    var r := DashCase(s);
    forall k | 0 <= k < |s| ensures ToLowerChar(r[k]) == ToLowerChar(s[k]) {
      CharFolds(s[k]);
    }
    assert forall k | 0 <= k < |s| :: Lower(r)[k] == Lower(s)[k];
  }

  /** Every minor word starts with a letter, so capitalising it changes it. */
  lemma MinorWordCapitalized(core: string)
    requires IsMinorWord(Lower(core))
    ensures core != [] && Capitalize(core) != Lower(core)
  {
    var w := Lower(core);
    assert w != [] && IsLowerChar(w[0]);
    assert Capitalize(core)[0] == ToUpperChar(core[0]);
  }

  /**
    One word of the output: a word that is all punctuation is kept as it
    is; otherwise its core is cased and its punctuation put back.
  */
  function CaseToken(word: string, i: nat, count: nat, result: seq<string>): (r: string)
    ensures Lower(r) == Lower(word)
  {
    var p := Peel(word);
    if p.core == [] then word
    else
      var r := p.lead + CaseCore(p.core, i, count, result) + p.trail;
      LowerAppend(p.lead + CaseCore(p.core, i, count, result), p.trail);
      LowerAppend(p.lead, CaseCore(p.core, i, count, result));
      LowerAppend(p.lead + p.core, p.trail);
      LowerAppend(p.lead, p.core);
      r
  }

  /** The body of the `for` loop of `smart_title_case` for one word. */
  method CaseWord(word: string, i: nat, count: nat, result: seq<string>) returns (token: string)
    ensures token == CaseToken(word, i, count, result)
  {
    var lead, core, trail := PeelWord(word);
    if core == [] {
      token := word;
    } else {
      token := lead + CaseCore(core, i, count, result) + trail;
    }
  }

  /** The first `n` output words, each cased with the ones before it as `result`. */
  function Cased(words: seq<string>, n: nat): (r: seq<string>)
    requires n <= |words|
    ensures |r| == n
    ensures forall k | 0 <= k < n :: Lower(r[k]) == Lower(words[k])
    decreases n
  {
    if n == 0 then []
    else
      var prev := Cased(words, n - 1);
      var token := CaseToken(words[n - 1], n - 1, |words|, prev);
      FoldsSnoc(prev, token, words);
      prev + [token]
  }

  lemma FoldsSnoc(prev: seq<string>, token: string, words: seq<string>)
    requires |prev| < |words|
    requires forall k | 0 <= k < |prev| :: Lower(prev[k]) == Lower(words[k])
    requires Lower(token) == Lower(words[|prev|])
    ensures forall k | 0 <= k <= |prev| :: Lower((prev + [token])[k]) == Lower(words[k])
  {
    forall k | 0 <= k <= |prev| ensures Lower((prev + [token])[k]) == Lower(words[k]) {
      if k < |prev| {
        assert (prev + [token])[k] == prev[k];
      }
    }
  }

  /** What `smart_title_case` returns. */
  function SmartTitleCaseOf(title: string): string {
    var words := Split(Cleaned(title));
    Join(Cased(words, |words|), " ")
  }

  /** Python `smart_title_case`. */
  method SmartTitleCase(title: string) returns (r: string)
    ensures r == SmartTitleCaseOf(title)
  {
    var t := title;
    if Contains(t, "_____") {
      t := SlashUnderscores(t);
    }
    t := DropSpaceBefore(t, '!');
    t := DropSpaceBefore(t, '?');
    t := CollapseSpaces(t);
    t := Strip(t);
    assert t == Cleaned(title);
    var words := Split(t);
    var result: seq<string> := [];
    for i := 0 to |words|
      invariant result == Cased(words, i)
    {
      var token := CaseWord(words[i], i, |words|, result);
      result := result + [token];
    }
    r := Join(result, " ");
  }

  // ---------------------------------------------------------------------
  // Properties of smart_title_case
  // ---------------------------------------------------------------------

  /** A string with the lower-case form of a word is a word. */
  lemma WordByLower(a: string, b: string)
    requires IsWord(b) && Lower(a) == Lower(b)
    ensures IsWord(a)
  {
    forall k | 0 <= k < |a| ensures !IsSpace(a[k]) {
      assert Lower(a)[k] == Lower(b)[k];
    }
  }

  /**
    The output is the cased words joined by single spaces, with nothing
    around them: as many words as the cleaned title has, each the same
    word up to letter case.
  */
  lemma SmartTitleCaseShape(title: string)
    ensures IsStripped(SmartTitleCaseOf(title))
    ensures SmartTitleCaseOf(title) == Join(Split(SmartTitleCaseOf(title)), " ")
    ensures |Split(SmartTitleCaseOf(title))| == |Split(Cleaned(title))|
    ensures forall k | 0 <= k < |Split(Cleaned(title))| ::
      Lower(Split(SmartTitleCaseOf(title))[k]) == Lower(Split(Cleaned(title))[k])
  {
    var words := Split(Cleaned(title));
    var cased := Cased(words, |words|);
    SplitWords(Cleaned(title));
    CasedWords(words);
    SplitJoin(cased);
    JoinWordsStripped(cased);
  }

  /**
    Up to letter case, the output holds the characters of the cleaned
    title other than whitespace, in order; when no underscore line is
    rewritten, those are the characters of the title itself.
  */
  lemma SmartTitleCaseKeepsText(title: string)
    ensures Lower(WithoutSpaces(SmartTitleCaseOf(title))) == Lower(WithoutSpaces(Cleaned(title)))
    ensures !Contains(title, "_____") ==>
      Lower(WithoutSpaces(SmartTitleCaseOf(title))) == Lower(WithoutSpaces(title))
  {
    var words := Split(Cleaned(title));
    var cased := Cased(words, |words|);
    SplitWords(Cleaned(title));
    CasedWords(words);
    JoinText(cased);
    SplitText(Cleaned(title));
    LowerConcat(cased, words);
  }

  /** The words of a list, written one after another. */
  function Concat(ws: seq<string>): string {
    if ws == [] then [] else ws[0] + Concat(ws[1..])
  }

  lemma {:induction false} WithoutSpacesNoSpace(w: string)
    requires NoSpace(w)
    ensures WithoutSpaces(w) == w
    decreases |w|
  {
    if w != [] {
      assert NoSpace(w[1..]) by {
        forall i | 0 <= i < |w[1..]| ensures !IsSpace(w[1..][i]) { assert w[1..][i] == w[i + 1]; }
      }
      WithoutSpacesNoSpace(w[1..]);
      assert [w[0]] + w[1..] == w;
    }
  }

  /** Joining words with single spaces and dropping the spaces again gives the words end to end. */
  lemma {:induction false} JoinText(ws: seq<string>)
    requires forall k | 0 <= k < |ws| :: IsWord(ws[k])
    ensures WithoutSpaces(Join(ws, " ")) == Concat(ws)
    decreases |ws|
  {
    if |ws| == 1 {
      WithoutSpacesNoSpace(ws[0]);
      assert Concat(ws[1..]) == [];
      assert ws[0] + [] == ws[0];
    } else if |ws| > 1 {
      JoinText(ws[1..]);
      WithoutSpacesNoSpace(ws[0]);
      WithoutSpacesAppend(ws[0] + " ", Join(ws[1..], " "));
      WithoutSpacesAppend(ws[0], " ");
      assert WithoutSpaces(" ") == [];
      assert ws[0] + [] == ws[0];
    }
  }

  /** `split()` keeps every character other than whitespace, in order. */
  lemma {:induction false} SplitText(s: string)
    ensures WithoutSpaces(s) == Concat(Split(s))
    decreases |s|
  {
    var t := LStrip(s);
    SpacesText(s, |s| - |t|);
    if t != [] {
      var k := SpanNonSpace(t, 0);
      assert k > 0;
      assert t[..k] == t[0..k];
      WithoutSpacesNoSpace(t[..k]);
      assert t == t[..k] + t[k..];
      WithoutSpacesAppend(t[..k], t[k..]);
      SplitText(t[k..]);
      assert Split(s) == [t[..k]] + Split(t[k..]);
      assert ([t[..k]] + Split(t[k..]))[1..] == Split(t[k..]);
    }
  }

  /** Lists that agree word by word up to case agree end to end up to case. */
  lemma {:induction false} LowerConcat(xs: seq<string>, ys: seq<string>)
    requires |xs| == |ys| && forall k | 0 <= k < |xs| :: Lower(xs[k]) == Lower(ys[k])
    ensures Lower(Concat(xs)) == Lower(Concat(ys))
    decreases |xs|
  {
    if xs != [] {
      LowerConcat(xs[1..], ys[1..]);
      LowerAppend(xs[0], Concat(xs[1..]));
      LowerAppend(ys[0], Concat(ys[1..]));
    }
  }

  lemma CasedWords(words: seq<string>)
    requires forall k | 0 <= k < |words| :: IsWord(words[k])
    ensures forall k | 0 <= k < |words| :: IsWord(Cased(words, |words|)[k])
  {
    var cased := Cased(words, |words|);
    forall k | 0 <= k < |words| ensures IsWord(cased[k]) {
      WordByLower(cased[k], words[k]);
    }
  }

  /** After `split()`, only the first word can start with a `c` that never follows whitespace. */
  lemma SplitFirstChars(s: string, c: char)
    requires !IsSpace(c) && NoSpaceBefore(s, c)
    ensures forall k | 0 <= k < |Split(s)| ::
      Split(s)[k] != [] && ((k > 0 || (s != [] && IsSpace(s[0]))) ==> Split(s)[k][0] != c)
  {
    SplitStartsOk(s, c);
  }

  /** Every word is non-empty, and none but the first (and it only when `lead` is false) starts with `c`. */
  predicate StartsOk(ws: seq<string>, c: char, lead: bool) {
    forall k | 0 <= k < |ws| :: ws[k] != [] && ((k > 0 || lead) ==> ws[k][0] != c)
  }

  lemma {:induction false} SplitStartsOk(s: string, c: char)
    requires !IsSpace(c) && NoSpaceBefore(s, c)
    ensures StartsOk(Split(s), c, s != [] && IsSpace(s[0]))
    decreases |s|
  {
    var t := LStrip(s);
    if t != [] {
      var m := SpanNonSpace(t, 0);
      LeadAfterSpace(s, c);
      FirstWord(t);
      AfterFirstWord(s, c);
      RestLead(t, m);
      SplitStartsOk(t[m..], c);
      SplitHead(s);
      StartsOkCons(t[..m], Split(t[m..]), c, s != [] && IsSpace(s[0]), t[m..] != [] && IsSpace(t[m..][0]));
    }
  }

  lemma AfterFirstWord(s: string, c: char)
    requires NoSpaceBefore(s, c) && LStrip(s) != []
    ensures NoSpaceBefore(LStrip(s)[SpanNonSpace(LStrip(s), 0)..], c)
    ensures |LStrip(s)[SpanNonSpace(LStrip(s), 0)..]| < |s|
  {
    var t := LStrip(s);
    var m := SpanNonSpace(t, 0);
    assert m > 0;
    assert NoSpaceBefore(t, c) by {
      NoSpaceBeforeSuffix(s, c, |s| - |t|);
    }
    NoSpaceBeforeSuffix(t, c, m);
  }

  lemma NoSpaceBeforeSuffix(s: string, c: char, i: nat)
    requires i <= |s| && NoSpaceBefore(s, c)
    ensures NoSpaceBefore(s[i..], c)
  {
    forall k | 1 <= k < |s| - i && s[i..][k] == c
      ensures !IsSpace(s[i..][k - 1])
    {
      assert s[i..][k] == s[i + k] && s[i..][k - 1] == s[i + k - 1];
    }
  }

  lemma RestLead(t: string, m: nat)
    requires m <= |t| && m == SpanNonSpace(t, 0)
    ensures Split(t[m..]) != [] ==> t[m..] != [] && IsSpace(t[m..][0])
  {
    if m == |t| {
      assert t[m..] == [];
    }
  }

  lemma StartsOkCons(w: string, rest: seq<string>, c: char, lead: bool, restLead: bool)
    requires w != [] && (lead ==> w[0] != c)
    requires StartsOk(rest, c, restLead) && (rest != [] ==> restLead)
    ensures StartsOk([w] + rest, c, lead)
  {
    var ws := [w] + rest;
    forall k | 0 <= k < |ws| ensures ws[k] != [] && ((k > 0 || lead) ==> ws[k][0] != c) {
      if k > 0 {
        assert ws[k] == rest[k - 1];
      }
    }
  }

  /** `split()` of text with a word: the first word, then the split of what follows it. */
  lemma SplitHead(s: string)
    requires LStrip(s) != []
    ensures Split(s) == [LStrip(s)[..SpanNonSpace(LStrip(s), 0)]] + Split(LStrip(s)[SpanNonSpace(LStrip(s), 0)..])
  {
  }

  /** Text that starts with whitespace cannot have `c` as its first non-blank character. */
  lemma LeadAfterSpace(s: string, c: char)
    requires !IsSpace(c) && NoSpaceBefore(s, c) && LStrip(s) != []
    ensures s != [] && IsSpace(s[0]) ==> LStrip(s)[0] != c
  {
    var t := LStrip(s);
    var d := |s| - |t|;
    assert t[0] == s[d];
    if s != [] && IsSpace(s[0]) {
      assert d > 0;
      assert s[..d][d - 1] == s[d - 1];
    }
  }

  /** A case change cannot turn a character into a punctuation mark or back. */
  lemma FirstCharKept(a: string, b: string, c: char)
    requires a != [] && b != [] && Lower(a) == Lower(b) && !IsAlpha(c)
    requires b[0] != c
    ensures a[0] != c
  {
    assert Lower(a)[0] == Lower(b)[0];
  }

  /** Joining words with single spaces puts a space only before a word's first character. */
  lemma {:induction false} JoinNoSpaceBefore(ws: seq<string>, c: char)
    requires !IsSpace(c)
    requires forall k | 0 <= k < |ws| :: IsWord(ws[k])
    requires forall k | 1 <= k < |ws| :: ws[k] == [] || ws[k][0] != c
    ensures NoSpaceBefore(Join(ws, " "), c)
    decreases |ws|
  {
    if |ws| == 1 {
      assert NoSpace(ws[0]);
    } else if |ws| > 1 {
      var w := ws[0];
      var rest := Join(ws[1..], " ");
      JoinNoSpaceBefore(ws[1..], c);
      JoinWordsStripped(ws[1..]);
      NoSpaceBeforeConcat(w, " ", c);
      NoSpaceBeforeConcat(w + " ", rest, c);
      assert Join(ws, " ") == w + " " + rest;
    }
  }

  lemma NoSpacedPair(s: string, c: char)
    requires NoSpaceBefore(s, c)
    ensures !Contains(s, [' ', c])
  {
    forall i | 0 <= i <= |s| ensures !OccursAt(s, [' ', c], i) {
      if i + 2 <= |s| {
        assert s[i..i + 2][0] == s[i] && s[i..i + 2][1] == s[i + 1];
      }
    }
  }

  lemma MarksAfterWords(t: string, c: char)
    requires !IsSpace(c) && !IsAlpha(c) && NoSpaceBefore(t, c)
    ensures NoSpaceBefore(Join(Cased(Split(t), |Split(t)|), " "), c)
  {
    var words := Split(t);
    var cased := Cased(words, |words|);
    SplitWords(t);
    CasedWords(words);
    SplitFirstChars(t, c);
    forall k | 1 <= k < |cased| ensures cased[k][0] != c {
      FirstCharKept(cased[k], words[k], c);
    }
    JoinNoSpaceBefore(cased, c);
  }

  /** The output never has whitespace before `!` or `?`; in particular it holds no `" !"` or `" ?"`. */
  lemma SmartTitleCaseMarks(title: string)
    ensures NoSpaceBefore(SmartTitleCaseOf(title), '!') && NoSpaceBefore(SmartTitleCaseOf(title), '?')
    ensures !Contains(SmartTitleCaseOf(title), " !") && !Contains(SmartTitleCaseOf(title), " ?")
  {
    MarkNotSpaced(title, '!');
    MarkNotSpaced(title, '?');
  }

  lemma MarkNotSpaced(title: string, c: char)
    requires c == '!' || c == '?'
    ensures NoSpaceBefore(SmartTitleCaseOf(title), c)
    ensures !Contains(SmartTitleCaseOf(title), [' ', c])
  {
    var t := Cleaned(title);
    assert NoSpaceBefore(t, c);
    MarksAfterWords(t, c);
    NoSpacedPair(SmartTitleCaseOf(title), c);
  }

  /** In `"PART III: THE ROAD HOME"` the numeral keeps its capitals and its colon. */
  lemma NumeralExample()
    ensures CaseToken("III:", 1, 5, ["Part"]) == "III:"
  {
    var w := "III:";
    assert LeadEnd(w, 0) == 0;
    assert CoreEnd(w, 0, 3) == 3;
    assert CoreEnd(w, 0, 4) == 3;
    var p := Peel(w);
    assert p == Pieces([], "III", ":");
    assert Upper("III") == "III";
    assert IsRomanNumeral("III");
    assert CaseCore(p.core, 1, 5, ["Part"]) == "III";
    assert p.lead + "III" + p.trail == w;
  }

  /** A minor word is capitalised after a colon... */
  lemma MinorWordAfterColonExample()
    ensures CaseToken("THE", 2, 5, ["Part", "III:"]) == "The"
  {
    assert EndsClause("III:") by {
      assert RStrip("III:") == "III:";
    }
    var result := ["Part", "III:"];
    assert result[|result| - 1] == "III:";
    TheToken(2, result);
  }

  /** ...and lower-cased after an ordinary word. */
  lemma MinorWordLoweredExample()
    ensures CaseToken("THE", 2, 5, ["Part", "Road"]) == "the"
  {
    assert !EndsClause("Road") by {
      assert RStrip("Road") == "Road";
    }
    var result := ["Part", "Road"];
    assert result[|result| - 1] == "Road";
    TheToken(2, result);
  }

  /** The word `THE` after the first position is cased by the clause rule alone. */
  lemma TheToken(i: nat, result: seq<string>)
    requires i > 0 && result != []
    ensures CaseToken("THE", i, 5, result)
      == if EndsClause(result[|result| - 1]) then "The" else "the"
  {
    var w := "THE";
    PeelThe(w);
    BareToken(w, i, 5, result);
    TheCore(w, i, result);
  }

  /** A word with no punctuation around it is cased as a core. */
  lemma BareToken(word: string, i: nat, count: nat, result: seq<string>)
    requires word != [] && Peel(word) == Pieces([], word, [])
    ensures CaseToken(word, i, count, result) == CaseCore(word, i, count, result)
  {
    var p := Peel(word);
    var c := CaseCore(word, i, count, result);
    assert p.lead == [] && p.core == word && p.trail == [];
    assert CaseToken(word, i, count, result) == p.lead + c + p.trail;
    Unwrapped(p.lead, c, p.trail);
  }

  lemma Unwrapped(a: string, c: string, b: string)
    requires a == [] && b == []
    ensures a + c + b == c
  {
  }

  lemma PeelThe(w: string)
    requires w == "THE"
    ensures Peel(w) == Pieces([], w, [])
  {
    assert LeadEnd(w, 0) == 0;
    assert CoreEnd(w, 0, 3) == 3;
  }

  lemma TheCore(w: string, i: nat, result: seq<string>)
    requires w == "THE" && i > 0 && result != []
    ensures CaseCore(w, i, 5, result) == if EndsClause(result[|result| - 1]) then "The" else "the"
  {
    assert Upper(w) == "THE" && Lower(w) == "the" && Capitalize(w) == "The";
    assert !IsRomanNumeral("THE") && IsMinorWord("the");
  }

  // ---------------------------------------------------------------------
  // fix_title and check_for_issues
  // ---------------------------------------------------------------------

  /** The notes `fix_title` reports. */
  datatype Note = AllCaps | SpaceBeforeMark | MultipleSpaces | UnderscoreLine | OuterWhitespace | Capitalization

  function NoteText(n: Note): string {
    match n
    case AllCaps => "Converted from ALL CAPS to Title Case"
    case SpaceBeforeMark => "Removed space before punctuation"
    case MultipleSpaces => "Fixed multiple spaces"
    case UnderscoreLine => "Replaced underscore line with ' / '"
    case OuterWhitespace => "Removed leading/trailing whitespace"
    case Capitalization => "Adjusted capitalization"
  }

  /** `title.isupper()`, or more than 60% capitals (`count > len * 0.6`, compared exactly). */
  predicate LooksAllCaps(title: string) {
    IsUpperText(title) || 5 * CountUpper(title) > 3 * |title|
  }

  /** `re.search(r'\s+[!?]', title)`. */
  predicate HasSpaceBeforeMark(title: string) {
    !NoSpaceBefore(title, '!') || !NoSpaceBefore(title, '?')
  }

  /** The notes for a title that changed, in the order `fix_title` appends them. */
  function ChangeNotes(title: string): (notes: seq<Note>)
    ensures notes != []
    ensures Capitalization in notes ==> notes == [Capitalization]
  {
    var notes :=
      (if LooksAllCaps(title) then [AllCaps] else [])
      + (if HasSpaceBeforeMark(title) then [SpaceBeforeMark] else [])
      + (if Contains(title, "  ") then [MultipleSpaces] else [])
      + (if Contains(title, "_____") then [UnderscoreLine] else [])
      + (if Strip(title) != title then [OuterWhitespace] else []);
    if notes == [] then [Capitalization] else notes
  }

  /** Python `fix_title`: the fixed title and the notes on what changed. */
  function FixTitle(title: string): (r: (string, seq<Note>))
    ensures r.0 == SmartTitleCaseOf(title)
    ensures r.1 == [] <==> r.0 == title
  {
    var fixed := SmartTitleCaseOf(title);
    (fixed, if title != fixed then ChangeNotes(title) else [])
  }

  /** A title with whitespace before `!` or `?` is always changed, and the note says so. */
  lemma SpaceBeforeMarkNoted(title: string)
    requires HasSpaceBeforeMark(title)
    ensures SpaceBeforeMark in FixTitle(title).1
  {
    SmartTitleCaseMarks(title);
  }

  /** A title with surrounding whitespace is always changed, and the note says so. */
  lemma OuterWhitespaceNoted(title: string)
    requires Strip(title) != title
    ensures OuterWhitespace in FixTitle(title).1
  {
    FixedDiffers(title);
    OuterNote(title);
  }

  /** A title with surrounding whitespace is never its own smart title case. */
  lemma FixedDiffers(title: string)
    requires Strip(title) != title
    ensures SmartTitleCaseOf(title) != title
  {
    SmartTitleCaseShape(title);
    if SmartTitleCaseOf(title) == title {
      StripOfStripped(title);
    }
  }

  lemma OuterNote(title: string)
    requires Strip(title) != title
    ensures OuterWhitespace in ChangeNotes(title)
  {
  }

  /** The warnings of `check_for_issues`. */
  datatype Issue = WordArtifact | UnusualCharacters(chars: set<char>) | VeryLong(length: nat) | PathLike

  /** The characters `check_for_issues` accepts: word characters, whitespace and common punctuation. */
  predicate IsUsualChar(c: char) {
    IsWordChar(c) || IsSpace(c) || c == '\'' || c == '"' || c == '.' || c == ',' || c == '!' || c == '?'
    || c == ';' || c == ':' || c == '-' || c == '–' || c == '—' || c == '/' || c == '(' || c == ')' || c == '&'
  }

  function UnusualChars(title: string): set<char> {
    set k | 0 <= k < |title| && !IsUsualChar(title[k]) :: title[k]
  }

  /** A backslash, or a capital letter followed by a colon (`[A-Z]:`). */
  predicate LooksLikePath(title: string) {
    '\\' in title || exists k | 0 <= k < |title| - 1 :: IsUpperChar(title[k]) && title[k + 1] == ':'
  }

  /** Python `check_for_issues` (the file name it receives is not used). */
  function CheckForIssues(title: string): (issues: seq<Issue>)
    ensures WordArtifact in issues
      <==> Contains(Upper(title), "EMBED") || Contains(title, "Word.") || Contains(title, "Picture.")
    ensures UnusualCharacters(UnusualChars(title)) in issues
      <==> exists k | 0 <= k < |title| :: !IsUsualChar(title[k])
    ensures VeryLong(|title|) in issues <==> |title| > 80
    ensures PathLike in issues <==> LooksLikePath(title)
    ensures |issues| <= 4
  {
    var unusual := UnusualChars(title);
    assert unusual != {} <==> exists k | 0 <= k < |title| :: !IsUsualChar(title[k]) by {
      if exists k | 0 <= k < |title| :: !IsUsualChar(title[k]) {
        var k :| 0 <= k < |title| && !IsUsualChar(title[k]);
        assert title[k] in unusual;
      }
    }
    (if Contains(Upper(title), "EMBED") || Contains(title, "Word.") || Contains(title, "Picture.") then [WordArtifact] else [])
    + (if unusual != {} then [UnusualCharacters(unusual)] else [])
    + (if |title| > 80 then [VeryLong(|title|)] else [])
    + (if LooksLikePath(title) then [PathLike] else [])
  }
}
