/**
  ASCII models of the Python string built-ins the site scripts rely on:
  `str.isspace`, `isupper`, `lower`, `upper`, `capitalize`, `strip`,
  `split()` with no separator, `sep.join`, the `in` substring test and
  code-point string comparison.

  Only the ASCII range is modelled: non-ASCII characters are opaque
  (never whitespace, never letters, never changed by a case mapping).
*/
module Text {

  /** Python's `None` or a value. */
  datatype Option<T> = None | Some(value: T)

  // ---------------------------------------------------------------------
  // Characters
  // ---------------------------------------------------------------------

  /** Python `str.isspace` on one ASCII character. */
  predicate IsSpace(c: char) {
    c == ' ' || c == '\t' || c == '\n' || c == '\r' || c == '\U{B}' || c == '\U{C}'
    || ('\U{1C}' <= c <= '\U{1F}')
  }

  predicate IsUpperChar(c: char) { 'A' <= c <= 'Z' }
  predicate IsLowerChar(c: char) { 'a' <= c <= 'z' }
  predicate IsAlpha(c: char) { IsUpperChar(c) || IsLowerChar(c) }
  predicate IsDigit(c: char) { '0' <= c <= '9' }

  /** A character of the regular-expression class `\w`. */
  predicate IsWordChar(c: char) { IsAlpha(c) || IsDigit(c) || c == '_' }

  function ToLowerChar(c: char): (r: char)
    ensures IsUpperChar(c) ==> IsLowerChar(r) && r as int == c as int + 32
    ensures !IsUpperChar(c) ==> r == c
    ensures IsAlpha(r) <==> IsAlpha(c)
    ensures IsSpace(r) <==> IsSpace(c)
    ensures !IsUpperChar(r)
  {
    if IsUpperChar(c) then (c as int + 32) as char else c
  }

  function ToUpperChar(c: char): (r: char)
    ensures IsLowerChar(c) ==> IsUpperChar(r) && r as int == c as int - 32
    ensures !IsLowerChar(c) ==> r == c
    ensures IsAlpha(r) <==> IsAlpha(c)
    ensures IsSpace(r) <==> IsSpace(c)
    ensures !IsLowerChar(r)
  {
    if IsLowerChar(c) then (c as int - 32) as char else c
  }

  // ---------------------------------------------------------------------
  // Case mappings
  // ---------------------------------------------------------------------

  /** Python `str.lower`. */
  function Lower(s: string): (r: string)
    ensures |r| == |s|
    ensures forall i | 0 <= i < |s| :: r[i] == ToLowerChar(s[i])
  {
    seq(|s|, i requires 0 <= i < |s| => ToLowerChar(s[i]))
  }

  /** Python `str.upper`. */
  function Upper(s: string): (r: string)
    ensures |r| == |s|
    ensures forall i | 0 <= i < |s| :: r[i] == ToUpperChar(s[i])
  {
    seq(|s|, i requires 0 <= i < |s| => ToUpperChar(s[i]))
  }

  /** Python `str.capitalize`: first character upper-cased, the rest lower-cased. */
  function Capitalize(s: string): (r: string)
    ensures |r| == |s|
    ensures |s| > 0 ==> r[0] == ToUpperChar(s[0])
    ensures forall i | 1 <= i < |s| :: r[i] == ToLowerChar(s[i])
  {
    if s == [] then [] else [ToUpperChar(s[0])] + Lower(s[1..])
  }

  /** No character of `s` is a lower-case letter. */
  predicate NoLower(s: string) {
    forall i | 0 <= i < |s| :: !IsLowerChar(s[i])
  }

  /** Some character of `s` is an upper-case letter. */
  predicate HasUpper(s: string) {
    exists i | 0 <= i < |s| :: IsUpperChar(s[i])
  }

  /** Python `str.isupper`: at least one cased character and none lower-case. */
  predicate IsUpperText(s: string) {
    HasUpper(s) && NoLower(s)
  }

  /** Number of upper-case letters in `s`. */
  function CountUpper(s: string): (n: nat)
    ensures n <= |s|
  {
    if s == [] then 0 else (if IsUpperChar(s[0]) then 1 else 0) + CountUpper(s[1..])
  }

  /** Number of occurrences of the character `c` in `s` (Python `s.count(c)`). */
  function CountChar(s: string, c: char): (n: nat)
    ensures n <= |s|
  {
    if s == [] then 0 else (if s[0] == c then 1 else 0) + CountChar(s[1..], c)
  }

  /** Lower-casing does not change how often a non-letter occurs. */
  lemma {:induction false} CountCharLower(s: string, c: char)
    requires !IsAlpha(c)
    ensures CountChar(Lower(s), c) == CountChar(s, c)
    decreases |s|
  {
    if s != [] {
      assert Lower(s)[1..] == Lower(s[1..]);
      CountCharLower(s[1..], c);
    }
  }

  lemma {:induction false} CountCharAbsent(s: string, c: char)
    requires c !in s
    ensures CountChar(s, c) == 0
    decreases |s|
  {
    if s != [] {
      assert c !in s[1..] by {
        forall k | 0 <= k < |s[1..]| ensures s[1..][k] != c { assert s[1..][k] == s[k + 1]; }
      }
      CountCharAbsent(s[1..], c);
    }
  }

  lemma LowerIdempotent(s: string)
    ensures Lower(Lower(s)) == Lower(s)
  {
  }

  lemma LowerAppend(a: string, b: string)
    ensures Lower(a + b) == Lower(a) + Lower(b)
  {
  }

  lemma LowerPrefix(s: string, k: nat)
    requires k <= |s|
    ensures Lower(s[..k]) == Lower(s)[..k]
  {
  }

  // ---------------------------------------------------------------------
  // Whitespace: strip, split, join
  // ---------------------------------------------------------------------

  predicate AllSpace(s: string) {
    forall i | 0 <= i < |s| :: IsSpace(s[i])
  }

  predicate NoSpace(s: string) {
    forall i | 0 <= i < |s| :: !IsSpace(s[i])
  }

  /** Python `str.lstrip()`. */
  function LStrip(s: string): (r: string)
    ensures |r| <= |s| && r == s[|s| - |r|..]
    ensures AllSpace(s[..|s| - |r|])
    ensures r == [] || !IsSpace(r[0])
  {
    if s != [] && IsSpace(s[0]) then LStrip(s[1..]) else s
  }

  /** Python `str.rstrip()`. */
  function RStrip(s: string): (r: string)
    ensures |r| <= |s| && r == s[..|r|]
    ensures AllSpace(s[|r|..])
    ensures r == [] || !IsSpace(r[|r| - 1])
  {
    if s != [] && IsSpace(s[|s| - 1]) then RStrip(s[..|s| - 1]) else s
  }

  /** Python `str.strip()`. */
  function Strip(s: string): (r: string)
    ensures r == [] || (!IsSpace(r[0]) && !IsSpace(r[|r| - 1]))
  {
    RStrip(LStrip(s))
  }

  /** A string without surrounding whitespace. */
  predicate IsStripped(s: string) {
    s == [] || (!IsSpace(s[0]) && !IsSpace(s[|s| - 1]))
  }

  lemma RStripOfStripped(s: string)
    requires s == [] || !IsSpace(s[|s| - 1])
    ensures RStrip(s) == s
  {
  }

  lemma LStripOfStripped(s: string)
    requires s == [] || !IsSpace(s[0])
    ensures LStrip(s) == s
  {
  }

  /** Stripping keeps only characters of the text. */
  lemma StripKeepsAbsent(s: string, c: char)
    requires c !in s
    ensures c !in Strip(s)
  {
    var l := LStrip(s);
    SliceKeepsAbsent(s, |s| - |l|, |s|, c);
    SliceKeepsAbsent(l, 0, |RStrip(l)|, c);
  }

  lemma SliceKeepsAbsent(s: string, i: nat, j: nat, c: char)
    requires i <= j <= |s| && c !in s
    ensures c !in s[i..j]
  {
    forall k | 0 <= k < j - i ensures s[i..j][k] != c {
      assert s[i..j][k] == s[i + k] && s[i + k] in s;
    }
  }

  lemma StripOfStripped(s: string)
    requires IsStripped(s)
    ensures Strip(s) == s
  {
    LStripOfStripped(s);
    RStripOfStripped(s);
  }

  /** `lstrip()` removes exactly a leading run of whitespace. */
  lemma {:induction false} LStripSpaces(l: string, y: string)
    requires AllSpace(l) && (y == [] || !IsSpace(y[0]))
    ensures LStrip(l + y) == y
    decreases |l|
  {
    if l == [] {
      assert l + y == y;
      LStripOfStripped(y);
    } else {
      assert (l + y)[0] == l[0];
      assert (l + y)[1..] == l[1..] + y;
      LStripSpaces(l[1..], y);
    }
  }

  /** `rstrip()` removes exactly a trailing run of whitespace. */
  lemma {:induction false} RStripSpaces(y: string, r: string)
    requires AllSpace(r) && (y == [] || !IsSpace(y[|y| - 1]))
    ensures RStrip(y + r) == y
    decreases |r|
  {
    if r == [] {
      assert y + r == y;
      RStripOfStripped(y);
    } else {
      assert (y + r)[|y + r| - 1] == r[|r| - 1];
      assert (y + r)[..|y + r| - 1] == y + r[..|r| - 1];
      RStripSpaces(y, r[..|r| - 1]);
    }
  }

  /** Stripping never brings in a character. */
  lemma StripFreeOf(s: string, c: char)
    requires c !in s
    ensures c !in Strip(s)
  {
    var l := LStrip(s);
    var r := RStrip(l);
    forall k | 0 <= k < |r|
      ensures r[k] != c
    {
      assert r[k] == l[k] == s[|s| - |l| + k];
    }
  }

  /** `strip()` recovers stripped text from any whitespace padding. */
  lemma StripPadded(l: string, x: string, r: string)
    requires AllSpace(l) && AllSpace(r) && IsStripped(x)
    ensures Strip(l + x + r) == x
  {
    if x == [] {
      assert l + x + r == (l + r) + [];
      assert AllSpace(l + r) by {
        forall i | 0 <= i < |l + r| ensures IsSpace((l + r)[i]) {
          if i >= |l| { assert (l + r)[i] == r[i - |l|]; }
        }
      }
      LStripSpaces(l + r, []);
    } else {
      assert l + x + r == l + (x + r);
      assert (x + r)[0] == x[0];
      LStripSpaces(l, x + r);
      RStripSpaces(x, r);
    }
  }

  /** The first index at or after `i` that holds whitespace, or `|t|`. */
  function SpanNonSpace(t: string, i: nat): (j: nat)
    requires i <= |t|
    ensures i <= j <= |t|
    ensures NoSpace(t[i..j])
    ensures j < |t| ==> IsSpace(t[j])
    decreases |t| - i
  {
    if i < |t| && !IsSpace(t[i]) then SpanNonSpace(t, i + 1) else i
  }

  /** A word as `str.split()` yields it: non-empty and without whitespace. */
  predicate IsWord(w: string) {
    w != [] && NoSpace(w)
  }

  /** Python `str.split()` with no separator: the maximal runs of non-whitespace. */
  function Split(s: string): seq<string>
    decreases |s|
  {
    var t := LStrip(s);
    if t == [] then []
    else
      var k := SpanNonSpace(t, 0);
      [t[..k]] + Split(t[k..])
  }

  /** Every piece `split()` returns is a word. */
  lemma {:induction false} SplitWords(s: string)
    ensures forall k | 0 <= k < |Split(s)| :: IsWord(Split(s)[k])
    decreases |s|
  {
    var t := LStrip(s);
    if t != [] {
      var k := SpanNonSpace(t, 0);
      SplitWords(t[k..]);
      FirstWord(t);
      var rest := Split(t[k..]);
      assert Split(s) == [t[..k]] + rest;
      forall j | 0 <= j < |Split(s)| ensures IsWord(Split(s)[j]) {
        if j > 0 {
          assert Split(s)[j] == rest[j - 1];
        }
      }
    }
  }

  /** The run of non-whitespace at the head of a text that does not start with whitespace is a word. */
  lemma FirstWord(t: string)
    requires t != [] && !IsSpace(t[0])
    ensures IsWord(t[..SpanNonSpace(t, 0)])
  {
    assert SpanNonSpace(t, 0) > 0;
  }

  /** Python `sep.join(ws)`. */
  function Join(ws: seq<string>, sep: string): (r: string)
    ensures |ws| == 1 ==> r == ws[0]
  {
    if ws == [] then [] else if |ws| == 1 then ws[0] else ws[0] + sep + Join(ws[1..], sep)
  }

  lemma JoinCons(w: string, ws: seq<string>, sep: string)
    requires ws != []
    ensures Join([w] + ws, sep) == w + sep + Join(ws, sep)
  {
    assert ([w] + ws)[1..] == ws;
  }

  /** Joining words with single spaces leaves no surrounding whitespace. */
  lemma {:induction false} JoinWordsStripped(ws: seq<string>)
    requires forall k | 0 <= k < |ws| :: IsWord(ws[k])
    ensures IsStripped(Join(ws, " "))
    ensures |ws| > 0 ==> Join(ws, " ") != [] && Join(ws, " ")[0] == ws[0][0]
  {
    if |ws| > 1 {
      JoinWordsStripped(ws[1..]);
    }
  }

  lemma LStripIdempotent(s: string)
    ensures LStrip(LStrip(s)) == LStrip(s)
  {
    LStripOfStripped(LStrip(s));
  }

  /** `split()` only looks at the string after its leading whitespace. */
  lemma SplitAfterLStrip(s: string)
    ensures Split(s) == Split(LStrip(s))
  {
    LStripIdempotent(s);
  }

  /** Splitting a word followed by whitespace and more text. */
  lemma {:induction false} SplitWordThen(w: string, rest: string)
    requires IsWord(w) && rest != [] && IsSpace(rest[0])
    ensures Split(w + rest) == [w] + Split(rest)
  {
    var r := w + rest;
    LStripOfStripped(r);
    SpanPrefixWord(w, rest);
    assert r[..|w|] == w;
    assert r[|w|..] == rest;
  }

  lemma {:induction false} SplitWord(w: string)
    requires IsWord(w)
    ensures Split(w) == [w]
  {
    LStripOfStripped(w);
    SpanAllNonSpace(w, 0);
    assert w[..|w|] == w;
    var e := w[|w|..];
    assert e == [];
    assert LStrip(e) == [];
    assert Split(e) == [];
  }

  lemma {:induction false} SplitLeadingSpace(rest: string)
    ensures Split(" " + rest) == Split(rest)
  {
    assert LStrip(" " + rest) == LStrip(rest) by {
      assert (" " + rest)[1..] == rest;
    }
    SplitAfterLStrip(" " + rest);
    SplitAfterLStrip(rest);
  }

  lemma SplitWordSpace(w: string, rest: string)
    requires IsWord(w)
    ensures Split(w + " " + rest) == [w] + Split(rest)
  {
    var tail := " " + rest;
    assert w + " " + rest == w + tail;
    SplitWordThen(w, tail);
    SplitLeadingSpace(rest);
  }

  lemma SplitJoinStep(w: string, tail: seq<string>)
    requires IsWord(w) && tail != [] && Split(Join(tail, " ")) == tail
    ensures Split(Join([w] + tail, " ")) == [w] + tail
  {
    JoinCons(w, tail, " ");
    SplitWordSpace(w, Join(tail, " "));
  }

  /** Splitting words joined by single spaces gives back the words. */
  lemma {:induction false} SplitJoin(ws: seq<string>)
    requires forall k | 0 <= k < |ws| :: IsWord(ws[k])
    ensures Split(Join(ws, " ")) == ws
  {
    if |ws| <= 1 {
      SplitJoinShort(ws);
    } else {
      var w, tail := ws[0], ws[1..];
      assert [w] + tail == ws;
      SplitJoin(tail);
      SplitJoinStep(w, tail);
    }
  }

  lemma SplitJoinShort(ws: seq<string>)
    requires |ws| <= 1 && (ws != [] ==> IsWord(ws[0]))
    ensures Split(Join(ws, " ")) == ws
  {
    if ws == [] {
      var e := Join(ws, " ");
      assert e == [];
      assert LStrip(e) == [];
    } else {
      var w := ws[0];
      assert Join(ws, " ") == w;
      SplitWord(w);
    }
  }


  lemma {:induction false} SpanAllNonSpace(w: string, i: nat)
    requires i <= |w| && NoSpace(w)
    ensures SpanNonSpace(w, i) == |w|
    decreases |w| - i
  {
    if i < |w| {
      SpanAllNonSpace(w, i + 1);
    }
  }

  lemma {:induction false} SpanPrefixWord(w: string, rest: string)
    requires NoSpace(w) && rest != [] && IsSpace(rest[0])
    ensures SpanNonSpace(w + rest, 0) == |w|
  {
    SpanPrefixWordFrom(w, rest, 0);
  }

  lemma {:induction false} SpanPrefixWordFrom(w: string, rest: string, i: nat)
    requires NoSpace(w) && rest != [] && IsSpace(rest[0]) && i <= |w|
    ensures SpanNonSpace(w + rest, i) == |w|
    decreases |w| - i
  {
    if i < |w| {
      SpanPrefixWordFrom(w, rest, i + 1);
    } else {
      assert (w + rest)[i] == rest[0];
    }
  }

  // ---------------------------------------------------------------------
  // Substrings, prefixes and ordering
  // ---------------------------------------------------------------------

  /** `sub` occurs in `s` starting at index `i`. */
  predicate OccursAt(s: string, sub: string, i: nat) {
    i + |sub| <= |s| && s[i..i + |sub|] == sub
  }

  /** Python `sub in s`. */
  predicate Contains(s: string, sub: string) {
    exists i | 0 <= i <= |s| :: OccursAt(s, sub, i)
  }

  /** Python `s.startswith(p)`. */
  predicate StartsWith(s: string, p: string) {
    |p| <= |s| && s[..|p|] == p
  }

  /** Python `s.endswith(p)`. */
  predicate EndsWith(s: string, p: string) {
    |p| <= |s| && s[|s| - |p|..] == p
  }

  /** A concatenation starts with its first part and ends with its second. */
  lemma ConcatAffixes(a: string, b: string)
    ensures StartsWith(a + b, a) && EndsWith(a + b, b)
  {
    assert (a + b)[..|a|] == a;
    assert (a + b)[|a + b| - |b|..] == b;
  }

  lemma ContainsWitness(s: string, sub: string, i: nat)
    requires OccursAt(s, sub, i)
    ensures Contains(s, sub)
  {
  }

  lemma ContainsInPrefix(s: string, sub: string, t: string)
    requires Contains(s, sub)
    ensures Contains(s + t, sub) && Contains(t + s, sub)
  {
    var i :| 0 <= i <= |s| && OccursAt(s, sub, i);
    assert (s + t)[i..i + |sub|] == s[i..i + |sub|];
    assert OccursAt(s + t, sub, i);
    assert (t + s)[|t| + i..|t| + i + |sub|] == s[i..i + |sub|];
    assert OccursAt(t + s, sub, |t| + i);
  }

  /** Python's `<` on strings: code-point lexicographic order. */
  predicate LexLess(a: string, b: string)
    decreases |a|
  {
    if a == [] then b != []
    else if b == [] then false
    else if a[0] != b[0] then a[0] < b[0]
    else LexLess(a[1..], b[1..])
  }

  lemma {:induction false} LexLessIrreflexive(a: string)
    ensures !LexLess(a, a)
    decreases |a|
  {
    if a != [] {
      LexLessIrreflexive(a[1..]);
    }
  }

  lemma {:induction false} LexLessTransitive(a: string, b: string, c: string)
    requires LexLess(a, b) && LexLess(b, c)
    ensures LexLess(a, c)
    decreases |a|
  {
    if a != [] && b != [] && c != [] && a[0] == b[0] && b[0] == c[0] {
      LexLessTransitive(a[1..], b[1..], c[1..]);
    }
  }

  lemma {:induction false} LexLessTotal(a: string, b: string)
    ensures a == b || LexLess(a, b) || LexLess(b, a)
    decreases |a|
  {
    if a != [] && b != [] && a[0] == b[0] {
      LexLessTotal(a[1..], b[1..]);
      if a[1..] == b[1..] {
        assert a == [a[0]] + a[1..] && b == [b[0]] + b[1..];
      }
    }
  }

  lemma {:induction false} LexLessAsymmetric(a: string, b: string)
    requires LexLess(a, b)
    ensures !LexLess(b, a)
  {
    if LexLess(b, a) {
      LexLessTransitive(a, b, a);
      LexLessIrreflexive(a);
    }
  }

  /** Python `a <= b` on strings. */
  predicate LexLeq(a: string, b: string) {
    a == b || LexLess(a, b)
  }
}
