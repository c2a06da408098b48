/**
  Python's `sorted(xs, key=..., reverse=...)` for string keys, as a stable
  insertion sort: it returns a permutation of its input ordered by the key.
*/
module Sorting {
  import opened Text
  import opened Grouping

  /** Key `a` comes strictly before key `b` in the requested direction. */
  predicate Precedes(a: string, b: string, descending: bool) {
    if descending then LexLess(b, a) else LexLess(a, b)
  }

  /** No later element comes strictly before an earlier one. */
  predicate SortedBy<V>(s: seq<V>, key: V -> string, descending: bool) {
    forall i, j | 0 <= i < j < |s| :: !Precedes(key(s[j]), key(s[i]), descending)
  }

  lemma PrecedesTotal(a: string, b: string, descending: bool)
    ensures !Precedes(a, b, descending) ==> a == b || Precedes(b, a, descending)
  {
    LexLessTotal(a, b);
  }

  lemma PrecedesTransitive(a: string, b: string, c: string, descending: bool)
    requires !Precedes(b, a, descending) && !Precedes(c, b, descending)
    ensures !Precedes(c, a, descending)
  {
    LexLessTotal(a, b);
    LexLessTotal(b, c);
    if Precedes(c, a, descending) {
      if descending {
        if LexLess(b, a) { LexLessTransitive(b, a, c); LexLessAsymmetric(b, c); }
        if LexLess(c, b) { LexLessTransitive(a, c, b); LexLessAsymmetric(a, b); }
        if a == b && b == c { LexLessIrreflexive(a); }
      } else {
        if LexLess(a, b) { LexLessTransitive(c, a, b); LexLessAsymmetric(c, b); }
        if LexLess(b, c) { LexLessTransitive(b, c, a); LexLessAsymmetric(b, a); }
        if a == b && b == c { LexLessIrreflexive(a); }
      }
    }
  }

  /** Insert `x` before the first element it strictly precedes (after its equals). */
  function Insert<V>(x: V, s: seq<V>, key: V -> string, descending: bool): (r: seq<V>)
    ensures multiset(r) == multiset(s) + multiset{x}
    ensures |r| == |s| + 1
    decreases |s|
  {
    if s == [] then [x]
    else if Precedes(key(x), key(s[0]), descending) then [x] + s
    else
      assert s == [s[0]] + s[1..];
      [s[0]] + Insert(x, s[1..], key, descending)
  }

  /** `sorted(xs, key=key, reverse=descending)`. */
  function SortBy<V>(xs: seq<V>, key: V -> string, descending: bool): (r: seq<V>)
    ensures multiset(r) == multiset(xs)
    ensures |r| == |xs|
    decreases |xs|
  {
    if xs == [] then []
    else
      assert xs == xs[..|xs| - 1] + [xs[|xs| - 1]];
      Insert(xs[|xs| - 1], SortBy(xs[..|xs| - 1], key, descending), key, descending)
  }

  /** No element of `s` comes strictly before `v`. */
  predicate NoneBefore<V>(v: V, s: seq<V>, key: V -> string, descending: bool) {
    forall j | 0 <= j < |s| :: !Precedes(key(s[j]), key(v), descending)
  }

  lemma SortedCons<V>(a: V, s: seq<V>, key: V -> string, descending: bool)
    requires SortedBy(s, key, descending) && NoneBefore(a, s, key, descending)
    ensures SortedBy([a] + s, key, descending)
  {
    var r := [a] + s;
    forall i, j | 0 <= i < j < |r| ensures !Precedes(key(r[j]), key(r[i]), descending) {
      assert r[j] == s[j - 1];
      if i > 0 {
        assert r[i] == s[i - 1];
      }
    }
  }

  lemma {:induction false} InsertNoneBefore<V>(a: V, x: V, s: seq<V>, key: V -> string, descending: bool)
    requires NoneBefore(a, s, key, descending) && !Precedes(key(x), key(a), descending)
    ensures NoneBefore(a, Insert(x, s, key, descending), key, descending)
    decreases |s|
  {
    if s != [] && !Precedes(key(x), key(s[0]), descending) {
      InsertNoneBefore(a, x, s[1..], key, descending);
      var r := Insert(x, s, key, descending);
      forall j | 0 <= j < |r| ensures !Precedes(key(r[j]), key(a), descending) {
        if j > 0 {
          assert r[j] == Insert(x, s[1..], key, descending)[j - 1];
        }
      }
    }
  }

  lemma {:induction false} InsertSorted<V>(x: V, s: seq<V>, key: V -> string, descending: bool)
    requires SortedBy(s, key, descending)
    ensures SortedBy(Insert(x, s, key, descending), key, descending)
    decreases |s|
  {
    if s == [] {
    } else if Precedes(key(x), key(s[0]), descending) {
      forall j | 0 <= j < |s| ensures !Precedes(key(s[j]), key(x), descending) {
        if j == 0 {
          if descending { LexLessAsymmetric(key(s[0]), key(x)); }
          else { LexLessAsymmetric(key(x), key(s[0])); }
        } else {
          PrecedesNotBack(key(x), key(s[0]), key(s[j]), descending);
        }
      }
      SortedCons(x, s, key, descending);
    } else {
      assert SortedBy(s[1..], key, descending) by {
        forall i, j | 0 <= i < j < |s[1..]| ensures !Precedes(key(s[1..][j]), key(s[1..][i]), descending) {
          assert s[1..][i] == s[i + 1] && s[1..][j] == s[j + 1];
        }
      }
      InsertSorted(x, s[1..], key, descending);
      assert NoneBefore(s[0], s[1..], key, descending) by {
        forall j | 0 <= j < |s[1..]| ensures !Precedes(key(s[1..][j]), key(s[0]), descending) {
          assert s[1..][j] == s[j + 1];
        }
      }
      InsertNoneBefore(s[0], x, s[1..], key, descending);
      SortedCons(s[0], Insert(x, s[1..], key, descending), key, descending);
    }
  }

  lemma PrecedesNotBack(a: string, b: string, c: string, descending: bool)
    requires Precedes(a, b, descending) && !Precedes(c, b, descending)
    ensures !Precedes(c, a, descending)
  {
    if Precedes(c, a, descending) {
      if descending {
        LexLessTransitive(b, a, c);
      } else {
        LexLessTransitive(c, a, b);
      }
      PrecedesTotal(c, b, descending);
      LexLessIrreflexive(b);
      LexLessIrreflexive(c);
      if descending { LexLessAsymmetric(b, c); } else { LexLessAsymmetric(c, b); }
    }
  }

  /** The result of `sorted` is ordered by the key. */
  lemma {:induction false} SortBySorted<V>(xs: seq<V>, key: V -> string, descending: bool)
    ensures SortedBy(SortBy(xs, key, descending), key, descending)
    decreases |xs|
  {
    if xs != [] {
      SortBySorted(xs[..|xs| - 1], key, descending);
      InsertSorted(xs[|xs| - 1], SortBy(xs[..|xs| - 1], key, descending), key, descending);
    }
  }

  /** `Insert` puts the element at the first position whose element it strictly precedes. */
  lemma {:induction false} InsertAt<V>(x: V, s: seq<V>, key: V -> string, descending: bool, i: nat)
    requires i <= |s|
    requires forall k | 0 <= k < i :: !Precedes(key(x), key(s[k]), descending)
    requires i < |s| ==> Precedes(key(x), key(s[i]), descending)
    ensures Insert(x, s, key, descending) == s[..i] + [x] + s[i..]
    decreases i
  {
    if i > 0 {
      forall k | 0 <= k < i - 1 ensures !Precedes(key(x), key(s[1..][k]), descending) {
        assert s[1..][k] == s[k + 1];
      }
      assert i - 1 < |s[1..]| ==> s[1..][i - 1] == s[i];
      InsertAt(x, s[1..], key, descending, i - 1);
      assert Insert(x, s, key, descending) == [s[0]] + Insert(x, s[1..], key, descending);
      SplitAfterHead(x, s, i);
    } else if s != [] {
      assert s[..0] + [x] + s[0..] == [x] + s;
    }
  }

  lemma SplitAfterHead<V>(x: V, s: seq<V>, i: nat)
    requires 0 < i <= |s|
    ensures [s[0]] + (s[1..][..i - 1] + [x] + s[1..][i - 1..]) == s[..i] + [x] + s[i..]
  {
    assert s[1..][..i - 1] == s[1..i];
    assert s[1..][i - 1..] == s[i..];
    assert [s[0]] + s[1..i] == s[..i];
  }

  /** Sorting an already ordered list changes nothing (the sort is stable). */
  lemma {:induction false} SortByOfSorted<V>(xs: seq<V>, key: V -> string, descending: bool)
    requires SortedBy(xs, key, descending)
    ensures SortBy(xs, key, descending) == xs
    decreases |xs|
  {
    if xs != [] {
      var init := xs[..|xs| - 1];
      var x := xs[|xs| - 1];
      assert init + [x] == xs;
      SortedInit(init, x, key, descending);
      SortByOfSorted(init, key, descending);
      InsertAt(x, init, key, descending, |init|);
      assert init[..|init|] == init && init[|init|..] == [];
      assert init + [x] == xs;
    }
  }

  /**
    Inserting into an ordered list puts `x` after every item with its key:
    the items of any one key keep their order, and `x` comes last among its own.
  */
  lemma {:induction false} InsertStable<V>(x: V, s: seq<V>, key: V -> string, descending: bool, k: string)
    requires SortedBy(s, key, descending)
    ensures Filter(Insert(x, s, key, descending), key, k)
      == Filter(s, key, k) + (if key(x) == k then [x] else [])
    decreases |s|
  {
    if s == [] {
      assert Insert(x, s, key, descending) == [x];
      assert [x][..0] == [];
    } else if Precedes(key(x), key(s[0]), descending) {
      assert Insert(x, s, key, descending) == [x] + s;
      InsertFrontStable(x, s, key, descending, k);
    } else {
      SortedTail(s, key, descending);
      InsertStable(x, s[1..], key, descending, k);
      InsertPastStable(x, s, key, descending, k);
    }
  }

  /** One step of `InsertStable`: `x` goes past the head of the list. */
  lemma InsertPastStable<V>(x: V, s: seq<V>, key: V -> string, descending: bool, k: string)
    requires s != [] && !Precedes(key(x), key(s[0]), descending)
    requires Filter(Insert(x, s[1..], key, descending), key, k)
      == Filter(s[1..], key, k) + (if key(x) == k then [x] else [])
    ensures Filter(Insert(x, s, key, descending), key, k)
      == Filter(s, key, k) + (if key(x) == k then [x] else [])
  {
    var r := Insert(x, s[1..], key, descending);
    assert Insert(x, s, key, descending) == [s[0]] + r;
    FilterAppend([s[0]], r, key, k);
    FilterAppend([s[0]], s[1..], key, k);
    assert [s[0]] + s[1..] == s;
  }

  /** An item placed before an ordered list it strictly precedes comes after all items with its key. */
  lemma InsertFrontStable<V>(x: V, s: seq<V>, key: V -> string, descending: bool, k: string)
    requires SortedBy(s, key, descending) && s != [] && Precedes(key(x), key(s[0]), descending)
    ensures Filter([x] + s, key, k) == Filter(s, key, k) + (if key(x) == k then [x] else [])
  {
    FilterAppend([x], s, key, k);
    assert [x][..0] == [];
    if key(x) == k {
      forall j | 0 <= j < |s| ensures key(s[j]) != k {
        LexLessIrreflexive(k);
        assert j > 0 ==> !Precedes(key(s[j]), key(s[0]), descending);
      }
      FilterNone(s, key, k);
    }
  }

  /** The tail of an ordered list is ordered. */
  lemma SortedTail<V>(s: seq<V>, key: V -> string, descending: bool)
    requires SortedBy(s, key, descending) && s != []
    ensures SortedBy(s[1..], key, descending)
  {
    forall i, j | 0 <= i < j < |s[1..]| ensures !Precedes(key(s[1..][j]), key(s[1..][i]), descending) {
      assert s[1..][i] == s[i + 1] && s[1..][j] == s[j + 1];
    }
  }

  /** A key no item has selects nothing. */
  lemma {:induction false} FilterNone<V>(s: seq<V>, key: V -> string, k: string)
    requires forall j | 0 <= j < |s| :: key(s[j]) != k
    ensures Filter(s, key, k) == []
    decreases |s|
  {
    if s != [] {
      FilterNone(s[..|s| - 1], key, k);
    }
  }

  /**
    `sorted` is stable: the items with any one key appear in the result in
    the order they had in the input.
  */
  lemma {:induction false} SortByStable<V>(xs: seq<V>, key: V -> string, descending: bool, k: string)
    ensures Filter(SortBy(xs, key, descending), key, k) == Filter(xs, key, k)
    decreases |xs|
  {
    if xs != [] {
      var init := xs[..|xs| - 1];
      var x := xs[|xs| - 1];
      SortByStable(init, key, descending, k);
      SortBySorted(init, key, descending);
      InsertStable(x, SortBy(init, key, descending), key, descending, k);
    }
  }

  /** Dropping the last item keeps a list ordered, and that item follows all the others. */
  lemma SortedInit<V>(init: seq<V>, x: V, key: V -> string, descending: bool)
    requires SortedBy(init + [x], key, descending)
    ensures SortedBy(init, key, descending)
    ensures forall k | 0 <= k < |init| :: !Precedes(key(x), key(init[k]), descending)
  {
    var xs := init + [x];
    forall i, j | 0 <= i < j < |init| ensures !Precedes(key(init[j]), key(init[i]), descending) {
      assert init[i] == xs[i] && init[j] == xs[j];
    }
    forall k | 0 <= k < |init| ensures !Precedes(key(x), key(init[k]), descending) {
      assert init[k] == xs[k] && x == xs[|init|];
    }
  }

  /** Filtering a sorted list keeps it sorted. */
  lemma {:induction false} FilterSorted<K, V>(xs: seq<V>, key: V -> K, k: K, order: V -> string, descending: bool)
    requires SortedBy(xs, order, descending)
    ensures SortedBy(Filter(xs, key, k), order, descending)
    decreases |xs|
  {
    if xs != [] {
      var init := xs[..|xs| - 1];
      var x := xs[|xs| - 1];
      assert SortedBy(init, order, descending) by {
        forall i, j | 0 <= i < j < |init| ensures !Precedes(order(init[j]), order(init[i]), descending) {
          assert init[i] == xs[i] && init[j] == xs[j];
        }
      }
      FilterSorted(init, key, k, order, descending);
      var f := Filter(init, key, k);
      if key(x) == k {
        forall i | 0 <= i < |f| ensures !Precedes(order(x), order(f[i]), descending) {
          FilterItemIn(init, key, k, i);
          var m :| 0 <= m < |init| && init[m] == f[i];
          assert xs[m] == f[i];
        }
        var g := f + [x];
        forall i, j | 0 <= i < j < |g| ensures !Precedes(order(g[j]), order(g[i]), descending) {
          assert g[i] == f[i];
          if j < |f| { assert g[j] == f[j]; }
        }
      }
    }
  }
}
