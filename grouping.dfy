/**
  The scripts' `defaultdict(list)` and `defaultdict(int)` accumulations.
  Python dictionaries keep insertion order, so a grouping is modelled as a
  sequence of groups in the order their keys first appear.
*/
module Grouping {

  /** One entry of a `defaultdict(list)`: a key and the items filed under it. */
  datatype Group<K, V> = Group(key: K, items: seq<V>)

  // ---------------------------------------------------------------------
  // Reference definition
  // ---------------------------------------------------------------------

  /** The items of `xs` whose key is `k`, in their original order. */
  function Filter<K(==), V>(xs: seq<V>, key: V -> K, k: K): (r: seq<V>)
    ensures |r| <= |xs|
    ensures forall j | 0 <= j < |r| :: key(r[j]) == k
    decreases |xs|
  {
    if xs == [] then []
    else
      var init := Filter(xs[..|xs| - 1], key, k);
      if key(xs[|xs| - 1]) == k then init + [xs[|xs| - 1]] else init
  }

  /** Filtering one more element of a prefix. */
  lemma FilterPrefixStep<K, V>(xs: seq<V>, i: nat, key: V -> K, k: K)
    requires i < |xs|
    ensures Filter(xs[..i + 1], key, k)
      == Filter(xs[..i], key, k) + (if key(xs[i]) == k then [xs[i]] else [])
  {
    assert xs[..i + 1][..i] == xs[..i];
  }

  /** The keys of `xs` in the order they first appear, each once. */
  function KeysOf<K(==), V>(xs: seq<V>, key: V -> K): (ks: seq<K>)
    ensures forall j | 0 <= j < |xs| :: key(xs[j]) in ks
    ensures forall k | k in ks :: exists j | 0 <= j < |xs| :: key(xs[j]) == k
    decreases |xs|
  {
    if xs == [] then []
    else
      var init := KeysOf(xs[..|xs| - 1], key);
      assert forall j | 0 <= j < |xs| - 1 :: xs[..|xs| - 1][j] == xs[j];
      if key(xs[|xs| - 1]) in init then init else init + [key(xs[|xs| - 1])]
  }

  predicate Distinct<T(==)>(s: seq<T>) {
    forall i, j | 0 <= i < j < |s| :: s[i] != s[j]
  }

  /** Grouping by `key`: one group per distinct key, in first-appearance order. */
  function GroupBy<K(==), V>(xs: seq<V>, key: V -> K): seq<Group<K, V>> {
    var ks := KeysOf(xs, key);
    seq(|ks|, j requires 0 <= j < |ks| => Group(ks[j], Filter(xs, key, ks[j])))
  }

  // ---------------------------------------------------------------------
  // The accumulation loop
  // ---------------------------------------------------------------------

  /** `groups[k].append(v)` on a `defaultdict(list)`. */
  function File<K(==), V>(gs: seq<Group<K, V>>, k: K, v: V): (r: seq<Group<K, V>>)
    decreases |gs|
  {
    if gs == [] then [Group(k, [v])]
    else if gs[0].key == k then [Group(k, gs[0].items + [v])] + gs[1..]
    else [gs[0]] + File(gs[1..], k, v)
  }

  /**
    `for x in xs: groups[key(x)].append(x)`, the loop each grouping in the
    scripts runs; it builds exactly the reference grouping.
  */
  method Accumulate<K(==), V>(xs: seq<V>, key: V -> K) returns (groups: seq<Group<K, V>>)
    ensures groups == GroupBy(xs, key)
  {
    groups := [];
    for i := 0 to |xs|
      invariant groups == GroupBy(xs[..i], key)
    {
      GroupBySnoc(xs[..i], xs[i], key);
      assert xs[..i] + [xs[i]] == xs[..i + 1];
      groups := File(groups, key(xs[i]), xs[i]);
    }
    assert xs[..|xs|] == xs;
  }

  // ---------------------------------------------------------------------
  // Properties
  // ---------------------------------------------------------------------

  /** `groups.keys()`. */
  function Keys<K, V>(gs: seq<Group<K, V>>): (ks: seq<K>)
    ensures |ks| == |gs|
  {
    seq(|gs|, i requires 0 <= i < |gs| => gs[i].key)
  }

  /** The keys of the grouping, in order, are the distinct keys in first-appearance order. */
  lemma KeysOfGroupBy<K, V>(xs: seq<V>, key: V -> K)
    ensures Keys(GroupBy(xs, key)) == KeysOf(xs, key)
  {
  }

  lemma KeysOfDistinct<K, V>(xs: seq<V>, key: V -> K)
    ensures Distinct(KeysOf(xs, key))
    decreases |xs|
  {
    if xs != [] {
      KeysOfDistinct(xs[..|xs| - 1], key);
    }
  }

  lemma {:induction false} FileExisting<K, V>(gs: seq<Group<K, V>>, k: K, v: V, j: nat)
    requires j < |gs| && gs[j].key == k
    requires forall i | 0 <= i < j :: gs[i].key != k
    ensures File(gs, k, v) == gs[j := Group(k, gs[j].items + [v])]
    decreases |gs|
  {
    if j > 0 {
      FileExisting(gs[1..], k, v, j - 1);
    }
  }

  lemma {:induction false} FileNew<K, V>(gs: seq<Group<K, V>>, k: K, v: V)
    requires forall i | 0 <= i < |gs| :: gs[i].key != k
    ensures File(gs, k, v) == gs + [Group(k, [v])]
    decreases |gs|
  {
    if gs != [] {
      FileNew(gs[1..], k, v);
    }
  }

  /** Filing one more item into the reference grouping gives the grouping of the longer list. */
  lemma GroupBySnoc<K, V>(xs: seq<V>, x: V, key: V -> K)
    ensures GroupBy(xs + [x], key) == File(GroupBy(xs, key), key(x), x)
  {
    var ys := xs + [x];
    assert ys[..|ys| - 1] == xs;
    var ks := KeysOf(xs, key);
    var gs := GroupBy(xs, key);
    KeysOfDistinct(xs, key);
    if key(x) in ks {
      var j :| 0 <= j < |ks| && ks[j] == key(x);
      FileExisting(gs, key(x), x, j);
    } else {
      FileNew(gs, key(x), x);
      FilterAbsent(xs, key, key(x));
      assert Filter(ys, key, key(x)) == [x];
    }
  }

  lemma {:induction false} FilterAbsent<K, V>(xs: seq<V>, key: V -> K, k: K)
    requires k !in KeysOf(xs, key)
    ensures Filter(xs, key, k) == []
    decreases |xs|
  {
    if xs != [] {
      FilterAbsent(xs[..|xs| - 1], key, k);
    }
  }

  /** Total number of items over all groups. */
  function TotalSize<K, V>(gs: seq<Group<K, V>>): nat
    decreases |gs|
  {
    if gs == [] then 0 else |gs[0].items| + TotalSize(gs[1..])
  }

  lemma {:induction false} TotalSizeFile<K, V>(gs: seq<Group<K, V>>, k: K, v: V)
    ensures TotalSize(File(gs, k, v)) == TotalSize(gs) + 1
    decreases |gs|
  {
    if gs != [] && gs[0].key != k {
      TotalSizeFile(gs[1..], k, v);
      assert ([gs[0]] + File(gs[1..], k, v))[1..] == File(gs[1..], k, v);
    } else if gs != [] {
      assert ([Group(k, gs[0].items + [v])] + gs[1..])[1..] == gs[1..];
    }
  }

  /** Groups partition the items: their sizes add up to the number of items. */
  lemma {:induction false} GroupsPartition<K, V>(xs: seq<V>, key: V -> K)
    ensures TotalSize(GroupBy(xs, key)) == |xs|
    decreases |xs|
  {
    if xs != [] {
      var init := xs[..|xs| - 1];
      GroupsPartition(init, key);
      GroupBySnoc(init, xs[|xs| - 1], key);
      assert init + [xs[|xs| - 1]] == xs;
      TotalSizeFile(GroupBy(init, key), key(xs[|xs| - 1]), xs[|xs| - 1]);
    }
  }

  /** Every item lands in the group of its own key, and no group is empty. */
  lemma {:induction false} FilterHasItem<K, V>(xs: seq<V>, key: V -> K, j: nat)
    requires j < |xs|
    ensures xs[j] in Filter(xs, key, key(xs[j]))
    decreases |xs|
  {
    if j < |xs| - 1 {
      FilterHasItem(xs[..|xs| - 1], key, j);
    }
  }

  lemma GroupsNonEmpty<K, V>(xs: seq<V>, key: V -> K)
    ensures forall g | g in GroupBy(xs, key) :: g.items != []
  {
    var ks := KeysOf(xs, key);
    forall g | g in GroupBy(xs, key) ensures g.items != [] {
      var j :| 0 <= j < |ks| && g == Group(ks[j], Filter(xs, key, ks[j]));
      assert ks[j] in ks;
      var i :| 0 <= i < |xs| && key(xs[i]) == ks[j];
      FilterHasItem(xs, key, i);
    }
  }

  /** Python `groups.get(k, [])`: the items of the group with key `k`, or none. */
  function Lookup<K(==), V>(gs: seq<Group<K, V>>, k: K): seq<V>
    decreases |gs|
  {
    if gs == [] then [] else if gs[0].key == k then gs[0].items else Lookup(gs[1..], k)
  }

  lemma {:induction false} LookupAt<K, V>(gs: seq<Group<K, V>>, k: K, j: nat)
    requires j < |gs| && gs[j].key == k
    requires forall i | 0 <= i < j :: gs[i].key != k
    ensures Lookup(gs, k) == gs[j].items
    decreases j
  {
    if j > 0 {
      LookupAt(gs[1..], k, j - 1);
    }
  }

  lemma {:induction false} LookupMissing<K, V>(gs: seq<Group<K, V>>, k: K)
    requires forall i | 0 <= i < |gs| :: gs[i].key != k
    ensures Lookup(gs, k) == []
    decreases |gs|
  {
    if gs != [] {
      LookupMissing(gs[1..], k);
    }
  }

  /** Looking a key up in the grouping gives the items with that key, in order. */
  lemma LookupGroupBy<K, V>(xs: seq<V>, key: V -> K, k: K)
    ensures Lookup(GroupBy(xs, key), k) == Filter(xs, key, k)
  {
    var ks := KeysOf(xs, key);
    var gs := GroupBy(xs, key);
    KeysOfDistinct(xs, key);
    if k in ks {
      var j :| 0 <= j < |ks| && ks[j] == k;
      LookupAt(gs, k, j);
    } else {
      LookupMissing(gs, k);
      FilterAbsent(xs, key, k);
    }
  }

  /** An item survives the filter exactly when it is in the list and carries the key. */
  lemma {:induction false} FilterMember<K, V>(xs: seq<V>, key: V -> K, k: K)
    ensures forall x :: x in Filter(xs, key, k) <==> x in xs && key(x) == k
    decreases |xs|
  {
    if xs != [] {
      var init := xs[..|xs| - 1];
      FilterMember(init, key, k);
      assert xs == init + [xs[|xs| - 1]];
    }
  }

  lemma FilterItemIn<K, V>(xs: seq<V>, key: V -> K, k: K, i: nat)
    requires i < |Filter(xs, key, k)|
    ensures Filter(xs, key, k)[i] in xs
  {
    FilterMember(xs, key, k);
    assert Filter(xs, key, k)[i] in Filter(xs, key, k);
  }

  /** Inserting an item the key does not select leaves the selection as it was. */
  lemma {:induction false} FilterInsertOther<K, V>(xs: seq<V>, j: nat, x: V, key: V -> K, k: K)
    requires j <= |xs| && key(x) != k
    ensures Filter(xs[..j] + [x] + xs[j..], key, k) == Filter(xs, key, k)
    decreases |xs|
  {
    var r := xs[..j] + [x] + xs[j..];
    if j == |xs| {
      assert r[..|r| - 1] == xs;
    } else {
      var ys := xs[..|xs| - 1];
      FilterInsertOther(ys, j, x, key, k);
      assert r[..|r| - 1] == ys[..j] + [x] + ys[j..];
      assert r[|r| - 1] == xs[|xs| - 1];
    }
  }

  /** Filtering a concatenation filters each part. */
  lemma {:induction false} FilterAppend<K, V>(xs: seq<V>, ys: seq<V>, key: V -> K, k: K)
    ensures Filter(xs + ys, key, k) == Filter(xs, key, k) + Filter(ys, key, k)
    decreases |ys|
  {
    if ys != [] {
      var init := ys[..|ys| - 1];
      FilterAppend(xs, init, key, k);
      assert (xs + ys)[..|xs + ys| - 1] == xs + init;
      assert (xs + ys)[|xs + ys| - 1] == ys[|ys| - 1];
    } else {
      assert xs + ys == xs;
    }
  }

  /** Reordering the items does not change which items a key selects, only their order. */
  lemma {:induction false} FilterPermutation<K, V>(xs: seq<V>, ys: seq<V>, key: V -> K, k: K)
    requires multiset(xs) == multiset(ys)
    ensures multiset(Filter(xs, key, k)) == multiset(Filter(ys, key, k))
    decreases |xs|
  {
    if xs == [] {
      assert |ys| == |multiset(ys)| == 0;
    } else {
      var x := xs[|xs| - 1];
      var init := xs[..|xs| - 1];
      assert xs == init + [x];
      assert multiset(xs) == multiset(init) + multiset{x};
      assert x in multiset(ys);
      var i :| 0 <= i < |ys| && ys[i] == x;
      var left, right := ys[..i], ys[i + 1..];
      RemoveAt(ys, i);
      CancelOne(multiset(left + right), multiset(init), x);
      FilterPermutation(init, left + right, key, k);
      FilterAround(left, x, right, key, k);
      FilterAppend(init, [x], key, k);
    }
  }

  /** Taking out position `i` removes one occurrence of `ys[i]`. */
  lemma RemoveAt<V>(ys: seq<V>, i: nat)
    requires i < |ys|
    ensures ys == ys[..i] + ([ys[i]] + ys[i + 1..])
    ensures multiset(ys) == multiset(ys[..i] + ys[i + 1..]) + multiset{ys[i]}
  {
    assert ys == ys[..i] + ([ys[i]] + ys[i + 1..]);
  }

  lemma CancelOne<V>(a: multiset<V>, b: multiset<V>, x: V)
    requires a + multiset{x} == b + multiset{x}
    ensures a == b
  {
    assert a == (a + multiset{x}) - multiset{x};
    assert b == (b + multiset{x}) - multiset{x};
  }

  /** Filtering a sequence with `x` inserted adds `x`'s own filter to the multiset. */
  lemma FilterAround<K, V>(left: seq<V>, x: V, right: seq<V>, key: V -> K, k: K)
    ensures multiset(Filter(left + ([x] + right), key, k))
         == multiset(Filter(left + right, key, k)) + multiset(Filter([x], key, k))
  {
    FilterAppend(left, [x] + right, key, k);
    FilterAppend([x], right, key, k);
    FilterAppend(left, right, key, k);
  }

  // ---------------------------------------------------------------------
  // Counters
  // ---------------------------------------------------------------------

  /** Number of occurrences of `k` in `xs`. */
  function Count<K(==)>(xs: seq<K>, k: K): (n: nat)
    ensures n <= |xs|
    decreases |xs|
  {
    if xs == [] then 0 else Count(xs[..|xs| - 1], k) + (if xs[|xs| - 1] == k then 1 else 0)
  }

  /** Python `counts.get(k, 0)`. */
  function Get<K>(counts: map<K, nat>, k: K): nat {
    if k in counts then counts[k] else 0
  }

  /** `counts[k] += 1` on a `defaultdict(int)`. */
  function Bump<K(!new)>(counts: map<K, nat>, k: K): (r: map<K, nat>)
    ensures r.Keys == counts.Keys + {k}
    ensures Get(r, k) == Get(counts, k) + 1
    ensures forall k' | k' != k :: Get(r, k') == Get(counts, k')
  {
    counts[k := Get(counts, k) + 1]
  }

  /** `for x in xs: counts[x] += 1` on a `defaultdict(int)`. */
  method Tally<K(==, !new)>(xs: seq<K>) returns (counts: map<K, nat>)
    ensures forall k :: Get(counts, k) == Count(xs, k)
    ensures forall k :: k in counts <==> k in xs
  {
    counts := map[];
    for i := 0 to |xs|
      invariant forall k :: Get(counts, k) == Count(xs[..i], k)
      invariant forall k :: k in counts <==> k in xs[..i]
    {
      assert xs[..i + 1][..i] == xs[..i];
      assert xs[..i + 1] == xs[..i] + [xs[i]];
      counts := Bump(counts, xs[i]);
    }
    assert xs[..|xs|] == xs;
  }

  /** Sum of the counts of the keys listed in `ks`. */
  function SumCounts<K(==)>(xs: seq<K>, ks: seq<K>): nat
    decreases |ks|
  {
    if ks == [] then 0 else Count(xs, ks[0]) + SumCounts(xs, ks[1..])
  }

  /** Number of items of `xs` that belong to `ks`. */
  function CountIn<K(==)>(xs: seq<K>, ks: seq<K>): (n: nat)
    ensures n <= |xs|
    decreases |xs|
  {
    if xs == [] then 0 else CountIn(xs[..|xs| - 1], ks) + (if xs[|xs| - 1] in ks then 1 else 0)
  }

  lemma {:induction false} SumCountsSnoc<K>(xs: seq<K>, x: K, ks: seq<K>)
    requires Distinct(ks)
    ensures SumCounts(xs + [x], ks) == SumCounts(xs, ks) + (if x in ks then 1 else 0)
    decreases |ks|
  {
    var ys := xs + [x];
    assert ys[..|ys| - 1] == xs;
    if ks != [] {
      assert Distinct(ks[1..]) by {
        forall i, j | 0 <= i < j < |ks[1..]| ensures ks[1..][i] != ks[1..][j] {
          assert ks[1..][i] == ks[i + 1] && ks[1..][j] == ks[j + 1];
        }
      }
      SumCountsSnoc(xs, x, ks[1..]);
      if x == ks[0] {
        assert x !in ks[1..] by {
          forall j | 0 <= j < |ks[1..]| ensures ks[1..][j] != x {
            assert ks[1..][j] == ks[j + 1];
          }
        }
      }
      assert x in ks <==> x == ks[0] || x in ks[1..] by {
        assert ks == [ks[0]] + ks[1..];
      }
    }
  }

  /**
    Counting over a list of distinct keys adds up the items that carry one
    of those keys; items with any other key are not counted.
  */
  lemma {:induction false} SumCountsIsCountIn<K>(xs: seq<K>, ks: seq<K>)
    requires Distinct(ks)
    ensures SumCounts(xs, ks) == CountIn(xs, ks)
    decreases |xs|
  {
    if xs == [] {
      SumCountsEmpty(xs, ks);
    } else {
      var init := xs[..|xs| - 1];
      SumCountsIsCountIn(init, ks);
      SumCountsSnoc(init, xs[|xs| - 1], ks);
      assert init + [xs[|xs| - 1]] == xs;
    }
  }

  lemma {:induction false} SumCountsEmpty<K>(xs: seq<K>, ks: seq<K>)
    requires xs == []
    ensures SumCounts(xs, ks) == 0
    decreases |ks|
  {
    if ks != [] {
      SumCountsEmpty(xs, ks[1..]);
    }
  }

  /** When every item carries one of the listed keys, the counts add up to the number of items. */
  lemma {:induction false} CountInAll<K>(xs: seq<K>, ks: seq<K>)
    requires forall j | 0 <= j < |xs| :: xs[j] in ks
    ensures CountIn(xs, ks) == |xs|
    decreases |xs|
  {
    if xs != [] {
      CountInAll(xs[..|xs| - 1], ks);
    }
  }

  // ---------------------------------------------------------------------
  // Lists without repeats
  // ---------------------------------------------------------------------

  /** In a list without repeats every item occurs at most once. */
  lemma {:induction false} DistinctOnce<T>(s: seq<T>, x: T)
    requires Distinct(s)
    ensures multiset(s)[x] <= 1
    decreases |s|
  {
    if s != [] {
      var init := s[..|s| - 1];
      assert Distinct(init) by {
        forall i, j | 0 <= i < j < |init| ensures init[i] != init[j] {
          assert init[i] == s[i] && init[j] == s[j];
        }
      }
      DistinctOnce(init, x);
      assert s == init + [s[|s| - 1]];
      if x == s[|s| - 1] {
        forall i | 0 <= i < |init| ensures init[i] != x {
          assert init[i] == s[i];
        }
      }
    }
  }

  /** Reordering a list without repeats leaves it without repeats. */
  lemma DistinctPermutation<T>(a: seq<T>, b: seq<T>)
    requires multiset(a) == multiset(b) && Distinct(a)
    ensures Distinct(b)
  {
    forall i, j | 0 <= i < j < |b| ensures b[i] != b[j] {
      var x := b[i];
      DistinctOnce(a, x);
      assert b == b[..j] + [b[j]] + b[j + 1..];
      assert b[..j][i] == x;
      assert multiset(b)[x] == multiset(b[..j])[x] + multiset{b[j]}[x] + multiset(b[j + 1..])[x];
    }
  }
}
