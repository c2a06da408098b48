/**
  ISO dates as the scripts handle them: text of the shape `YYYY-MM-DD`
  (the regular expression `\d{4}-\d{2}-\d{2}`), found at the start of a
  file name or anywhere in a link, and compared as plain strings.
*/
module Dates {
  import opened Text
  import opened Scan

  /** `\d{4}-\d{2}-\d{2}` matches at index `i` of `t`. */
  predicate IsDateAt(t: string, i: nat) {
    i + 10 <= |t|
    && IsDigit(t[i]) && IsDigit(t[i + 1]) && IsDigit(t[i + 2]) && IsDigit(t[i + 3])
    && t[i + 4] == '-' && IsDigit(t[i + 5]) && IsDigit(t[i + 6])
    && t[i + 7] == '-' && IsDigit(t[i + 8]) && IsDigit(t[i + 9])
  }

  /** A string that is exactly one date. */
  predicate IsDate(d: string) {
    |d| == 10 && IsDateAt(d, 0)
  }

  /** `re.match(r'\d{4}-\d{2}-\d{2}', t)`: the date may be followed by anything. */
  predicate StartsWithDate(t: string) {
    IsDateAt(t, 0)
  }

  /** Leftmost index at or after `i` where a date starts (the scan of `re.search`). */
  function DateFrom(t: string, i: nat): (r: Option<nat>)
    requires i <= |t|
    ensures r.Some? ==> i <= r.value && IsDateAt(t, r.value)
    ensures r.Some? ==> forall k | i <= k < r.value :: !IsDateAt(t, k)
    ensures r.None? ==> forall k | i <= k <= |t| :: !IsDateAt(t, k)
    decreases |t| - i
  {
    if i + 10 > |t| then None
    else if IsDateAt(t, i) then Some(i)
    else DateFrom(t, i + 1)
  }

  /** `re.search(r'(\d{4}-\d{2}-\d{2})', t).group(1)`, or `None`. */
  function FirstDate(t: string): (r: Option<string>)
    ensures r.Some? ==> IsDate(r.value) && Contains(t, r.value)
    ensures r.None? <==> forall k | 0 <= k <= |t| :: !IsDateAt(t, k)
  {
    match DateFrom(t, 0)
    case None => None
    case Some(k) =>
      assert OccursAt(t, t[k..k + 10], k);
      Some(t[k..k + 10])
  }

  /** A date found in the middle of a link is the first one there. */
  lemma FirstDateOfLink(prefix: string, d: string, suffix: string)
    requires IsDate(d)
    requires forall k | 0 <= k < |prefix| :: !IsDateAt(prefix + d + suffix, k)
    ensures FirstDate(prefix + d + suffix) == Some(d)
  {
    var t := prefix + d + suffix;
    assert t[|prefix|..|prefix| + 10] == d;
    assert IsDateAt(t, |prefix|);
    var r := DateFrom(t, 0);
    assert r.Some? && r.value <= |prefix|;
  }

  /** The four-digit year a date starts with (`date[:4]`). */
  function YearOf(d: string): (y: string)
    requires IsDate(d)
    ensures |y| == 4 && StartsWith(d, y)
  {
    d[..4]
  }

  /**
    For well-formed dates, string order is calendar order: a date with an
    earlier year sorts first whatever its month and day.
  */
  lemma {:induction false} EarlierYearSortsFirst(a: string, b: string)
    requires IsDate(a) && IsDate(b)
    requires LexLess(YearOf(a), YearOf(b))
    ensures LexLess(a, b)
  {
    LexLessPrefix(a, b, 4);
  }

  /** Strings whose first `n` characters already compare one way compare that way. */
  lemma {:induction false} LexLessPrefix(a: string, b: string, n: nat)
    requires n <= |a| && n <= |b|
    requires LexLess(a[..n], b[..n])
    ensures LexLess(a, b)
    decreases n
  {
    assert a[..n] != [] && b[..n] != [];
    assert a[..n][0] == a[0] && b[..n][0] == b[0];
    if a[0] == b[0] {
      assert a[..n][1..] == a[1..][..n - 1];
      assert b[..n][1..] == b[1..][..n - 1];
      LexLessPrefix(a[1..], b[1..], n - 1);
    }
  }
}
