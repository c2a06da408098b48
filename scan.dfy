/**
  Building blocks for the regular expressions and string methods the
  scripts use. Every pattern of the scripts is modelled by a hand-written
  recogniser assembled from the character runs below; `SubFrom` is
  `re.sub`'s scan (leftmost match, replace, resume after it), and
  `ReplaceAll` and `SplitOn` are `str.replace` and `str.split(sep)`.
*/
module Scan {
  import opened Text

  // ---------------------------------------------------------------------
  // Character runs
  // ---------------------------------------------------------------------

  /** End of the whitespace run that starts at `i` (the regex `\s*`). */
  function SkipSpaces(t: string, i: nat): (j: nat)
    requires i <= |t|
    ensures i <= j <= |t|
    ensures AllSpace(t[i..j])
    ensures j < |t| ==> !IsSpace(t[j])
    decreases |t| - i
  {
    if i < |t| && IsSpace(t[i]) then SkipSpaces(t, i + 1) else i
  }

  /** The whitespace run from `i` ends at `m` when all before `m` is whitespace and `m` is not. */
  lemma {:induction false} SkipSpacesTo(t: string, i: nat, m: nat)
    requires i <= m <= |t| && AllSpace(t[i..m])
    requires m < |t| ==> !IsSpace(t[m])
    ensures SkipSpaces(t, i) == m
    decreases m - i
  {
    if i < m {
      assert t[i..m][0] == t[i];
      var u, w := t[i + 1..m], t[i..m];
      assert AllSpace(u) by {
        forall k | 0 <= k < |u| ensures IsSpace(u[k]) {
          assert u[k] == w[k + 1];
        }
      }
      SkipSpacesTo(t, i + 1, m);
    }
  }

  predicate AllDigits(s: string) {
    forall k | 0 <= k < |s| :: IsDigit(s[k])
  }

  /** End of the digit run that starts at `i` (the regex `\d*`). */
  function SkipDigits(t: string, i: nat): (j: nat)
    requires i <= |t|
    ensures i <= j <= |t|
    ensures AllDigits(t[i..j])
    ensures j < |t| ==> !IsDigit(t[j])
    decreases |t| - i
  {
    if i < |t| && IsDigit(t[i]) then SkipDigits(t, i + 1) else i
  }

  /** End of the run of lower-case letters that starts at `i` (the regex `[a-z]*`). */
  function SkipLower(t: string, i: nat): (j: nat)
    requires i <= |t|
    ensures i <= j <= |t|
    ensures forall k | i <= k < j :: IsLowerChar(t[k])
    ensures j < |t| ==> !IsLowerChar(t[j])
    decreases |t| - i
  {
    if i < |t| && IsLowerChar(t[i]) then SkipLower(t, i + 1) else i
  }

  /** The regex `\b` at index `i`: a word character on exactly one side. */
  predicate IsBoundary(t: string, i: nat)
    requires i <= |t|
  {
    (i > 0 && IsWordChar(t[i - 1])) != (i < |t| && IsWordChar(t[i]))
  }

  /** A run of whitespace that stops inside `l` stops at the same place in `l + s`. */
  lemma {:induction false} SkipSpacesExtends(l: string, s: string, i: nat)
    requires i <= |l| && SkipSpaces(l, i) < |l|
    ensures SkipSpaces(l + s, i) == SkipSpaces(l, i)
    decreases |l| - i
  {
    assert (l + s)[i] == l[i];
    if IsSpace(l[i]) {
      SkipSpacesExtends(l, s, i + 1);
    }
  }

  /** `\s*` from `i` stops exactly where a known whitespace run ends. */
  lemma {:induction false} SkipSpacesRun(t: string, i: nat, j: nat)
    requires i <= j <= |t| && AllSpace(t[i..j])
    requires j < |t| ==> !IsSpace(t[j])
    ensures SkipSpaces(t, i) == j
    decreases j - i
  {
    if i < j {
      assert IsSpace(t[i..j][0]);
      assert t[i + 1..j] == t[i..j][1..];
      SkipSpacesRun(t, i + 1, j);
    }
  }

  /** The regex `$` without MULTILINE: the end, or just before a final newline. */
  predicate AtEnd(t: string, i: nat) {
    i == |t| || (i + 1 == |t| && t[i] == '\n')
  }

  lemma BoundaryOfLower(t: string, i: nat)
    requires i <= |t|
    ensures IsBoundary(Lower(t), i) == IsBoundary(t, i)
  {
  }

  /** `w` occurs at `i` when letters are compared without regard to case (`re.IGNORECASE`). */
  predicate FoldedAt(t: string, w: string, i: nat) {
    i + |w| <= |t| && Lower(t[i..i + |w|]) == Lower(w)
  }

  lemma FoldedAtLower(t: string, w: string, i: nat)
    ensures FoldedAt(Lower(t), w, i) == FoldedAt(t, w, i)
  {
    if i + |w| <= |t| {
      assert Lower(t)[i..i + |w|] == Lower(t[i..i + |w|]);
      LowerIdempotent(t[i..i + |w|]);
    }
  }

  lemma {:induction false} SkipSpacesLower(t: string, i: nat)
    requires i <= |t|
    ensures SkipSpaces(Lower(t), i) == SkipSpaces(t, i)
    decreases |t| - i
  {
    if i < |t| && IsSpace(t[i]) {
      SkipSpacesLower(t, i + 1);
    }
  }

  lemma {:induction false} SkipDigitsLower(t: string, i: nat)
    requires i <= |t|
    ensures SkipDigits(Lower(t), i) == SkipDigits(t, i)
    decreases |t| - i
  {
    if i < |t| && IsDigit(t[i]) {
      SkipDigitsLower(t, i + 1);
    }
  }

  // ---------------------------------------------------------------------
  // Decimal numbers
  // ---------------------------------------------------------------------

  function DigitValue(c: char): (n: nat)
    requires IsDigit(c)
    ensures n < 10
  {
    c as int - '0' as int
  }

  function DigitChar(n: nat): (c: char)
    requires n < 10
    ensures IsDigit(c) && DigitValue(c) == n
  {
    ('0' as int + n) as char
  }

  /** Python `int(s)` on a run of decimal digits. */
  function DecimalValue(s: string): (n: nat)
    requires AllDigits(s)
    decreases |s|
  {
    if s == [] then 0 else DecimalValue(s[..|s| - 1]) * 10 + DigitValue(s[|s| - 1])
  }

  /** Python `str(n)` for a natural number. */
  function DecimalString(n: nat): (s: string)
    ensures s != [] && AllDigits(s)
    ensures n > 0 ==> s[0] != '0'
    decreases n
  {
    if n < 10 then [DigitChar(n)] else DecimalString(n / 10) + [DigitChar(n % 10)]
  }

  /** `int(str(n)) == n`. */
  lemma {:induction false} DecimalRoundTrip(n: nat)
    ensures DecimalValue(DecimalString(n)) == n
    decreases n
  {
    var s := DecimalString(n);
    if n >= 10 {
      DecimalRoundTrip(n / 10);
      assert s[..|s| - 1] == DecimalString(n / 10);
    }
  }

  // ---------------------------------------------------------------------
  // re.sub
  // ---------------------------------------------------------------------

  /** One match of a substitution rule: how many characters it spans and what replaces them. */
  datatype Hit = Hit(len: nat, repl: string)

  /** The rule matches at `i` and consumes at least one character. */
  predicate Fires(rule: (string, nat) -> Option<Hit>, t: string, i: nat) {
    i < |t| && rule(t, i).Some? && 0 < rule(t, i).value.len <= |t| - i
  }

  /**
    `re.sub` from index `i`: at each index the rule either matches, and its
    replacement is emitted and scanning resumes after the match, or the
    character is copied and scanning moves on by one.
  */
  function SubFrom(t: string, i: nat, rule: (string, nat) -> Option<Hit>): string
    requires i <= |t|
    decreases |t| - i
  {
    if i == |t| then []
    else if Fires(rule, t, i) then rule(t, i).value.repl + SubFrom(t, i + rule(t, i).value.len, rule)
    else [t[i]] + SubFrom(t, i + 1, rule)
  }

  /** `re.sub(pattern, repl, t)` for the rule that models `pattern` and `repl`. */
  function Sub(t: string, rule: (string, nat) -> Option<Hit>): string {
    SubFrom(t, 0, rule)
  }

  /**
    A substitution whose every match is replaced by the text it matched
    leaves the string unchanged; in particular so does one that never matches.
  */
  predicate KeepsText(rule: (string, nat) -> Option<Hit>, t: string, j: nat) {
    Fires(rule, t, j) ==> rule(t, j).value.repl == t[j..j + rule(t, j).value.len]
  }

  lemma {:induction false} SubFromIdentity(t: string, i: nat, rule: (string, nat) -> Option<Hit>)
    requires i <= |t|
    requires forall j | i <= j < |t| :: KeepsText(rule, t, j)
    ensures SubFrom(t, i, rule) == t[i..]
    decreases |t| - i
  {
    if i < |t| {
      var n := if Fires(rule, t, i) then rule(t, i).value.len else 1;
      SubFromIdentity(t, i + n, rule);
      SubFromKept(t, i, rule, n);
    }
  }

  /** One step of the substitution that keeps its text: the `n` characters from `i` come back as they were. */
  lemma SubFromKept(t: string, i: nat, rule: (string, nat) -> Option<Hit>, n: nat)
    requires i < |t| && KeepsText(rule, t, i)
    requires n == if Fires(rule, t, i) then rule(t, i).value.len else 1
    requires SubFrom(t, i + n, rule) == t[i + n..]
    ensures SubFrom(t, i, rule) == t[i..]
  {
    assert t[i..] == t[i..i + n] + t[i + n..];
    if !Fires(rule, t, i) {
      assert t[i..i + 1] == [t[i]];
    }
  }

  lemma SubNoMatch(t: string, rule: (string, nat) -> Option<Hit>)
    requires forall j | 0 <= j < |t| :: !Fires(rule, t, j)
    ensures Sub(t, rule) == t
  {
    forall j | 0 <= j < |t| ensures KeepsText(rule, t, j) {
    }
    SubFromIdentity(t, 0, rule);
  }

  // ---------------------------------------------------------------------
  // str.replace and str.split(sep)
  // ---------------------------------------------------------------------

  /** Python `s.replace(pat, repl)`: leftmost, non-overlapping occurrences. */
  function ReplaceAll(s: string, pat: string, repl: string): string
    requires pat != []
    decreases |s|
  {
    if |s| < |pat| then s
    else if s[..|pat|] == pat then repl + ReplaceAll(s[|pat|..], pat, repl)
    else [s[0]] + ReplaceAll(s[1..], pat, repl)
  }

  /** Replacing a single character works character by character. */
  lemma {:induction false} ReplaceCharAppend(a: string, b: string, c: char, repl: string)
    ensures ReplaceAll(a + b, [c], repl) == ReplaceAll(a, [c], repl) + ReplaceAll(b, [c], repl)
    decreases |a|
  {
    if a == [] {
      assert a + b == b;
    } else {
      assert (a + b)[1..] == a[1..] + b;
      assert (a + b)[..1] == a[..1];
      ReplaceCharAppend(a[1..], b, c, repl);
    }
  }

  lemma {:induction false} ReplaceCharAbsent(s: string, c: char, repl: string)
    requires c !in s
    ensures ReplaceAll(s, [c], repl) == s
    decreases |s|
  {
    if s != [] {
      assert s[..1] != [c] by { assert s[..1][0] == s[0]; }
      ReplaceCharAbsent(s[1..], c, repl);
    }
  }

  /** Python `s.split(sep)` for a one-character separator. */
  function SplitOn(s: string, sep: char): (parts: seq<string>)
    ensures |parts| >= 1
    ensures forall k | 0 <= k < |parts| :: sep !in parts[k]
    decreases |s|
  {
    if s == [] then [[]]
    else
      var rest := SplitOn(s[1..], sep);
      if s[0] == sep then [[]] + rest else [[s[0]] + rest[0]] + rest[1..]
  }

  /** `sep.join(s.split(sep)) == s`. */
  lemma {:induction false} JoinSplitOn(s: string, sep: char)
    ensures Join(SplitOn(s, sep), [sep]) == s
    decreases |s|
  {
    if s != [] {
      var rest := SplitOn(s[1..], sep);
      JoinSplitOn(s[1..], sep);
      if s[0] == sep {
        JoinCons([], rest, [sep]);
      } else if |rest| == 1 {
      } else {
        JoinCons(rest[0], rest[1..], [sep]);
        JoinCons([s[0]] + rest[0], rest[1..], [sep]);
        assert [rest[0]] + rest[1..] == rest;
      }
    }
  }

  /** `s.split(sep)` has one piece more than `s` has separators. */
  lemma {:induction false} SplitOnCount(s: string, sep: char)
    ensures |SplitOn(s, sep)| == CountChar(s, sep) + 1
    decreases |s|
  {
    if s != [] {
      SplitOnCount(s[1..], sep);
    }
  }

  lemma {:induction false} SplitOnNoSep(a: string, sep: char)
    requires sep !in a
    ensures SplitOn(a, sep) == [a]
    decreases |a|
  {
    if a != [] {
      SplitOnNoSep(a[1..], sep);
      assert [a[0]] + a[1..] == a;
    }
  }

  lemma {:induction false} SplitOnPrefix(a: string, b: string, sep: char)
    requires sep !in a
    ensures SplitOn(a + [sep] + b, sep) == [a] + SplitOn(b, sep)
    decreases |a|
  {
    if a == [] {
      assert a + [sep] + b == [sep] + b;
      assert ([sep] + b)[1..] == b;
    } else {
      assert (a + [sep] + b)[1..] == a[1..] + [sep] + b;
      SplitOnPrefix(a[1..], b, sep);
      assert [a[0]] + a[1..] == a;
    }
  }

  /** `(sep.join(parts)).split(sep) == parts` when no part holds the separator. */
  lemma {:induction false} SplitOnJoin(parts: seq<string>, sep: char)
    requires |parts| >= 1
    requires forall k | 0 <= k < |parts| :: sep !in parts[k]
    ensures SplitOn(Join(parts, [sep]), sep) == parts
    decreases |parts|
  {
    if |parts| == 1 {
      SplitOnNoSep(parts[0], sep);
    } else {
      JoinCons(parts[0], parts[1..], [sep]);
      assert parts == [parts[0]] + parts[1..];
      SplitOnPrefix(parts[0], Join(parts[1..], [sep]), sep);
      SplitOnJoin(parts[1..], sep);
    }
  }
}
