/** Counting distinct values: pandas' `value_counts()` and Python's `Counter`. */
module Tally {
  import opened Sorting
  import opened Seqs

  /** One distinct value and how often it occurs. */
  datatype Entry<K> = Entry(key: K, count: nat)

  function Keys<K>(t: seq<Entry<K>>): set<K>
  {
    if t == [] then {} else {t[0].key} + Keys(t[1..])
  }

  /** No two entries share a key. */
  predicate DistinctKeys<K(==)>(t: seq<Entry<K>>)
  {
    t == [] || (t[0].key !in Keys(t[1..]) && DistinctKeys(t[1..]))
  }

  /** The count stored for `x`, or 0 when `x` has no entry. */
  function Lookup<K(==)>(t: seq<Entry<K>>, x: K): nat
  {
    if t == [] then 0 else if t[0].key == x then t[0].count else Lookup(t[1..], x)
  }

  function SumCounts<K>(t: seq<Entry<K>>): int
  {
    if t == [] then 0 else t[0].count + SumCounts(t[1..])
  }

  predicate PositiveCounts<K>(t: seq<Entry<K>>)
  {
    forall i :: 0 <= i < |t| ==> t[i].count >= 1
  }

  /** Counts one more `x`: its entry is incremented, or a new entry is appended. */
  function Bump<K(==)>(t: seq<Entry<K>>, x: K): (r: seq<Entry<K>>)
    ensures |r| > 0
  {
    if t == [] then [Entry(x, 1)]
    else if t[0].key == x then [Entry(x, t[0].count + 1)] + t[1..]
    else [t[0]] + Bump(t[1..], x)
  }

  /** The distinct values of `s` in order of first occurrence, with their counts
      (a `Counter`, or the hash table `value_counts` fills before it sorts). */
  function Occurrences<K(==)>(s: seq<K>): (r: seq<Entry<K>>)
    ensures |s| > 0 ==> |r| > 0
  {
    if s == [] then [] else Bump(Occurrences(s[..|s| - 1]), s[|s| - 1])
  }

  /** Sorting key for "largest count first". */
  function DescCount<K>(e: Entry<K>): real
  {
    -(e.count as real)
  }

  /** `value_counts()` and `Counter.most_common()`: distinct values by decreasing count;
      equal counts stay in order of first occurrence. */
  function ValueCounts<K(==)>(s: seq<K>): (r: seq<Entry<K>>)
    ensures |s| > 0 ==> |r| > 0
  {
    SortBy(Occurrences(s), DescCount)
  }

  /** `Counter.most_common(n)`: `ValueCounts` cut to `n` entries, and empty for
      `n <= 0` (Python's `heapq.nlargest` returns nothing there). */
  function MostCommon<K(==)>(s: seq<K>, n: int): seq<Entry<K>>
  {
    var vc := ValueCounts(s);
    if n <= 0 then [] else if n < |vc| then vc[..n] else vc
  }

  lemma {:induction false} KeysIndex<K>(t: seq<Entry<K>>, y: K)
    ensures y in Keys(t) <==> exists i :: 0 <= i < |t| && t[i].key == y
    decreases |t|
  {
    if t != [] {
      KeysIndex(t[1..], y);
      if y in Keys(t[1..]) {
        var i :| 0 <= i < |t[1..]| && t[1..][i].key == y;
        assert t[i + 1].key == y;
      }
      if exists i :: 0 <= i < |t| && t[i].key == y {
        var i :| 0 <= i < |t| && t[i].key == y;
        if i > 0 { assert t[1..][i - 1].key == y; }
      }
    }
  }

  lemma {:induction false} DistinctKeysAt<K>(t: seq<Entry<K>>)
    requires DistinctKeys(t)
    ensures forall i, j :: 0 <= i < j < |t| ==> t[i].key != t[j].key
    decreases |t|
  {
    if t != [] {
      DistinctKeysAt(t[1..]);
      forall j | 0 < j < |t| ensures t[0].key != t[j].key {
        KeysIndex(t[1..], t[j].key);
        assert t[1..][j - 1] == t[j];
      }
      forall i, j | 0 < i < j < |t| ensures t[i].key != t[j].key {
        assert t[1..][i - 1] == t[i] && t[1..][j - 1] == t[j];
      }
    }
  }

  lemma {:induction false} KeysAppend<K>(t: seq<Entry<K>>, x: Entry<K>)
    ensures Keys(t + [x]) == Keys(t) + {x.key}
    ensures DistinctKeys(t + [x]) <==> DistinctKeys(t) && x.key !in Keys(t)
    ensures SumCounts(t + [x]) == SumCounts(t) + x.count
    decreases |t|
  {
    if t == [] {
      assert [] + [x] == [x];
    } else {
      assert (t + [x])[1..] == t[1..] + [x];
      KeysAppend(t[1..], x);
    }
  }

  lemma {:induction false} BumpProps<K>(t: seq<Entry<K>>, x: K)
    requires DistinctKeys(t) && PositiveCounts(t)
    ensures DistinctKeys(Bump(t, x)) && PositiveCounts(Bump(t, x))
    ensures forall y :: Lookup(Bump(t, x), y) == Lookup(t, y) + (if y == x then 1 else 0)
    ensures SumCounts(Bump(t, x)) == SumCounts(t) + 1
    ensures Keys(Bump(t, x)) == Keys(t) + {x}
    decreases |t|
  {
    if t == [] {
    } else if t[0].key == x {
      assert Bump(t, x)[1..] == t[1..];
    } else {
      BumpProps(t[1..], x);
      assert Bump(t, x)[1..] == Bump(t[1..], x);
      assert forall i :: 0 < i < |t| ==> t[i] == t[1..][i - 1];
      forall i | 0 < i < |Bump(t, x)| ensures Bump(t, x)[i].count >= 1 {
        assert Bump(t, x)[i] == Bump(t[1..], x)[i - 1];
      }
    }
  }

  /** The occurrence table has one entry per distinct value, each with its positive
      number of occurrences; the counts add up to the length. */
  lemma OccurrencesProps<K>(s: seq<K>)
    ensures DistinctKeys(Occurrences(s)) && PositiveCounts(Occurrences(s))
    ensures forall y :: Lookup(Occurrences(s), y) == multiset(s)[y]
    ensures SumCounts(Occurrences(s)) == |s|
    ensures Keys(Occurrences(s)) == set x | x in s
  {
    OccurrencesCounts(s);
    OccurrencesKeys(s);
  }

  lemma {:induction false} OccurrencesCounts<K>(s: seq<K>)
    ensures DistinctKeys(Occurrences(s)) && PositiveCounts(Occurrences(s))
    ensures forall y :: Lookup(Occurrences(s), y) == multiset(s)[y]
    ensures SumCounts(Occurrences(s)) == |s|
  {
    if s != [] {
      var init, x := s[..|s| - 1], s[|s| - 1];
      var occ := Occurrences(init);
      OccurrencesCounts(init);
      BumpProps(occ, x);
      assert Occurrences(s) == Bump(occ, x);
      assert s == init + [x];
      assert multiset(s) == multiset(init) + multiset{x};
    }
  }

  lemma {:induction false} OccurrencesKeys<K>(s: seq<K>)
    ensures Keys(Occurrences(s)) == set x | x in s
  {
    if s != [] {
      var init, x := s[..|s| - 1], s[|s| - 1];
      var occ := Occurrences(init);
      OccurrencesKeys(init);
      BumpKeys(occ, x);
      assert Occurrences(s) == Bump(occ, x);
      assert (set y | y in s) == (set y | y in init) + {x} by {
        assert s == init + [x];
        forall y | y in s ensures y in init || y == x {
          var i :| 0 <= i < |s| && s[i] == y;
          if i < |init| { assert init[i] == y; }
        }
      }
    }
  }

  lemma {:induction false} BumpKeys<K>(t: seq<Entry<K>>, x: K)
    ensures Keys(Bump(t, x)) == Keys(t) + {x}
    decreases |t|
  {
    if t != [] && t[0].key != x {
      BumpKeys(t[1..], x);
      assert Bump(t, x)[1..] == Bump(t[1..], x);
    } else if t != [] {
      assert Bump(t, x)[1..] == t[1..];
    }
  }

  lemma {:induction false} LookupAt<K>(t: seq<Entry<K>>, i: nat)
    requires DistinctKeys(t) && i < |t|
    ensures Lookup(t, t[i].key) == t[i].count
    decreases i
  {
    if i > 0 {
      assert t[1..][i - 1] == t[i];
      LookupAt(t[1..], i - 1);
      DistinctKeysAt(t);
    }
  }

  lemma {:induction false} InsertEntries<K>(x: Entry<K>, r: seq<Entry<K>>)
    requires DistinctKeys(r) && x.key !in Keys(r)
    ensures DistinctKeys(Insert(x, r, DescCount))
    ensures SumCounts(Insert(x, r, DescCount)) == x.count + SumCounts(r)
    ensures Keys(Insert(x, r, DescCount)) == Keys(r) + {x.key}
    decreases |r|
  {
    if r == [] {
    } else if DescCount(r[0]) <= DescCount(x) {
      InsertEntries(x, r[1..]);
      assert Insert(x, r, DescCount)[1..] == Insert(x, r[1..], DescCount);
    } else {
      assert Insert(x, r, DescCount)[1..] == r;
    }
  }

  lemma {:induction false} SortEntries<K>(t: seq<Entry<K>>)
    requires DistinctKeys(t)
    ensures DistinctKeys(SortBy(t, DescCount))
    ensures SumCounts(SortBy(t, DescCount)) == SumCounts(t)
    ensures Keys(SortBy(t, DescCount)) == Keys(t)
  {
    if t != [] {
      var init, x := t[..|t| - 1], t[|t| - 1];
      assert t == init + [x];
      KeysAppend(init, x);
      SortEntries(init);
      InsertEntries(x, SortBy(init, DescCount));
    }
  }

  lemma {:induction false} ValueCountsPermutes<K>(s: seq<K>)
    ensures DistinctKeys(ValueCounts(s))
    ensures SumCounts(ValueCounts(s)) == |s|
    ensures Keys(ValueCounts(s)) == (set x | x in s)
    ensures multiset(ValueCounts(s)) == multiset(Occurrences(s))
  {
    OccurrencesProps(s);
    SortByPermutation(Occurrences(s), DescCount);
    SortEntries(Occurrences(s));
  }

  /** What `value_counts()` promises: one entry per distinct value, each with that
      value's number of occurrences, largest count first, counts adding up to the
      length of the input. */
  lemma {:induction false} ValueCountsProps<K>(s: seq<K>)
    ensures var vc := ValueCounts(s);
      && (forall i, j :: 0 <= i < j < |vc| ==> vc[i].key != vc[j].key)
      && (forall i :: 0 <= i < |vc| ==> vc[i].count == multiset(s)[vc[i].key] >= 1)
      && (forall i, j :: 0 <= i < j < |vc| ==> vc[i].count >= vc[j].count)
      && Keys(vc) == (set x | x in s)
      && SumCounts(vc) == |s|
  {
    var occ := Occurrences(s);
    var vc := ValueCounts(s);
    ValueCountsPermutes(s);
    OccurrencesProps(s);
    DistinctKeysAt(vc);
    forall i | 0 <= i < |vc| ensures vc[i].count == multiset(s)[vc[i].key] >= 1 {
      assert vc[i] in multiset(occ);
      var j :| 0 <= j < |occ| && occ[j] == vc[i];
      LookupAt(occ, j);
      assert Lookup(occ, occ[j].key) == multiset(s)[occ[j].key];
      assert occ[j].count >= 1;
    }
    SortBySorted(occ, DescCount);
    forall i, j | 0 <= i < j < |vc| ensures vc[i].count >= vc[j].count {
      assert DescCount(vc[i]) <= DescCount(vc[j]);
    }
  }

  /** Every value of the input, and nothing else, has an entry. */
  lemma ValueCountsCovers<K>(s: seq<K>, x: K)
    ensures x in s <==> exists i :: 0 <= i < |ValueCounts(s)| && ValueCounts(s)[i].key == x
  {
    ValueCountsProps(s);
    KeysIndex(ValueCounts(s), x);
  }

  /** The first entry has the largest count of all values of the input. */
  lemma ValueCountsFirstIsMax<K>(s: seq<K>, x: K)
    requires |s| > 0
    ensures |ValueCounts(s)| > 0
    ensures multiset(s)[x] <= ValueCounts(s)[0].count
  {
    ValueCountsProps(s);
    var vc := ValueCounts(s);
    ValueCountsCovers(s, s[0]);
    if x in s {
      ValueCountsCovers(s, x);
    }
  }

  /** Entry `i` of `value_counts()` is a value of the input with its number of
      occurrences. */
  lemma ValueCountsEntry<K>(s: seq<K>, i: nat)
    requires i < |ValueCounts(s)|
    ensures ValueCounts(s)[i].key in s
    ensures ValueCounts(s)[i].count == multiset(s)[ValueCounts(s)[i].key] >= 1
  {
    ValueCountsProps(s);
    KeysIndex(ValueCounts(s), ValueCounts(s)[i].key);
  }

  /** The first entry of `value_counts()` is a most frequent value. */
  lemma ValueCountsTop<K>(s: seq<K>)
    requires |s| > 0
    ensures |ValueCounts(s)| > 0
    ensures ValueCounts(s)[0].key in s
    ensures ValueCounts(s)[0].count == multiset(s)[ValueCounts(s)[0].key]
    ensures forall x :: multiset(s)[x] <= ValueCounts(s)[0].count
  {
    ValueCountsFirstIsMax(s, s[0]);
    ValueCountsEntry(s, 0);
    forall x ensures multiset(s)[x] <= ValueCounts(s)[0].count {
      ValueCountsFirstIsMax(s, x);
    }
  }

  /** With distinct keys, there are as many keys as entries. */
  lemma {:induction false} KeysCard<K>(t: seq<Entry<K>>)
    requires DistinctKeys(t)
    ensures |Keys(t)| == |t|
  {
    if t != [] {
      KeysCard(t[1..]);
    }
  }

  // ---------------------------------------------------------------- top-k selections

  /** How many of `n` elements the slice `[:k]` keeps. */
  function HeadSize(n: nat, k: int): nat
  {
    if k >= 0 then (if k <= n then k else n)
    else if -k <= n then n + k else 0
  }

  /** `t` picks values of `univ` by `count`, largest first: distinct values, each with
      its own count, in decreasing order; no value left out counts more than any value
      picked; and there are as many as `[:k]` keeps of all of `univ`. */
  predicate TopSelection<K(==)>(t: seq<Entry<K>>, univ: set<K>, count: K -> nat, k: int)
  {
    && (forall i :: 0 <= i < |t| ==> t[i].key in univ && t[i].count == count(t[i].key))
    && (forall i, j :: 0 <= i < j < |t| ==> t[i].key != t[j].key)
    && (forall i, j :: 0 <= i < j < |t| ==> t[i].count >= t[j].count)
    && (forall x, i :: x in univ && x !in Keys(t) && 0 <= i < |t| ==> count(x) <= t[i].count)
    && |t| == HeadSize(|univ|, k)
  }

  /** Sorting a table by decreasing count and keeping `[:k]` selects its `k` largest
      entries. */
  lemma SortedHead<K>(t0: seq<Entry<K>>, k: int)
    requires DistinctKeys(t0)
    ensures TopSelection(PyPrefix(SortBy(t0, DescCount), k), Keys(t0), x => Lookup(t0, x), k)
  {
    SortedAll(t0);
    PrefixSelection(SortBy(t0, DescCount), Keys(t0), x => Lookup(t0, x), k);
  }

  /** The whole sorted table selects every key of the table. */
  lemma SortedAll<K>(t0: seq<Entry<K>>)
    requires DistinctKeys(t0)
    ensures Keys(SortBy(t0, DescCount)) == Keys(t0)
    ensures TopSelection(SortBy(t0, DescCount), Keys(t0), x => Lookup(t0, x), |Keys(t0)|)
  {
    SortedEntries(t0);
  }

  lemma SortedEntries<K>(t0: seq<Entry<K>>)
    requires DistinctKeys(t0)
    ensures var sorted := SortBy(t0, DescCount);
      && Keys(sorted) == Keys(t0) && |sorted| == |Keys(t0)|
      && (forall i :: 0 <= i < |sorted| ==> sorted[i].key in Keys(t0) && sorted[i].count == Lookup(t0, sorted[i].key))
      && (forall i, j :: 0 <= i < j < |sorted| ==> sorted[i].key != sorted[j].key)
      && (forall i, j :: 0 <= i < j < |sorted| ==> sorted[i].count >= sorted[j].count)
  {
    var sorted := SortBy(t0, DescCount);
    SortEntries(t0);
    SortByPermutation(t0, DescCount);
    SortBySorted(t0, DescCount);
    DistinctKeysAt(sorted);
    KeysCard(sorted);
    forall i | 0 <= i < |sorted| ensures sorted[i].key in Keys(t0) && sorted[i].count == Lookup(t0, sorted[i].key) {
      assert sorted[i] in multiset(t0);
      var j :| 0 <= j < |t0| && t0[j] == sorted[i];
      LookupAt(t0, j);
      KeysIndex(t0, sorted[i].key);
    }
    forall i, j | 0 <= i < j < |sorted| ensures sorted[i].count >= sorted[j].count {
      assert DescCount(sorted[i]) <= DescCount(sorted[j]);
    }
  }

  /** `[:k]` of a full selection is a selection of `k`. */
  lemma PrefixSelection<K>(t: seq<Entry<K>>, univ: set<K>, f: K -> nat, k: int)
    requires Keys(t) == univ && TopSelection(t, univ, f, |univ|)
    ensures TopSelection(PyPrefix(t, k), univ, f, k)
  {
    var head := PyPrefix(t, k);
    assert head == t[..|head|];
    forall x, i | x in univ && x !in Keys(head) && 0 <= i < |head|
      ensures f(x) <= head[i].count
    {
      KeysIndex(t, x);
      KeysIndex(head, x);
      var j :| 0 <= j < |t| && t[j].key == x;
      assert j >= |head|;
    }
  }

  /** A selection by one count is a selection by any count that agrees with it. */
  lemma TopSelectionSame<K>(t: seq<Entry<K>>, univ: set<K>, f: K -> nat, g: K -> nat, k: int)
    requires forall x :: f(x) == g(x)
    requires TopSelection(t, univ, f, k)
    ensures TopSelection(t, univ, g, k)
  {
  }

  /** `value_counts().head(limit)` selects the `limit` most frequent values, and all
      of them when the limit allows. */
  lemma ValueCountsSelect<K>(s: seq<K>, limit: int)
    ensures TopSelection(PyPrefix(ValueCounts(s), limit), (set x | x in s), x => multiset(s)[x], limit)
    ensures limit >= |set x | x in s| ==> Keys(PyPrefix(ValueCounts(s), limit)) == set x | x in s
  {
    ValueCountsRanks(s, limit);
    if limit >= |set x | x in s| {
      ValueCountsPermutes(s);
      KeysCard(ValueCounts(s));
      assert PyPrefix(ValueCounts(s), limit) == ValueCounts(s);
    }
  }

  /** Helper: the selection property, transferred from the occurrence table. */
  lemma ValueCountsRanks<K>(s: seq<K>, limit: int)
    ensures TopSelection(PyPrefix(ValueCounts(s), limit), (set x | x in s), x => multiset(s)[x], limit)
  {
    var occ := Occurrences(s);
    OccurrencesProps(s);
    SortedHead(occ, limit);
    assert PyPrefix(ValueCounts(s), limit) == PyPrefix(SortBy(occ, DescCount), limit);
    TopSelectionSame(PyPrefix(ValueCounts(s), limit), (set x | x in s),
      x => Lookup(occ, x), x => multiset(s)[x], limit);
  }

  /** `value_counts().head(limit)`: at most `limit` distinct values with their counts,
      largest first; for a positive limit it is empty exactly when `s` is, and its first
      value occurs most often; it selects the `limit` most frequent values, so no value
      left out occurs more often than one kept, and it keeps `min(limit, #values)`. */
  lemma ValueCountsHead<K>(s: seq<K>, limit: int)
    ensures var t := PyPrefix(ValueCounts(s), limit);
      && (limit >= 0 ==> |t| <= limit)
      && (forall i, j :: 0 <= i < j < |t| ==> t[i].key != t[j].key)
      && (forall i :: 0 <= i < |t| ==> t[i].count == multiset(s)[t[i].key] >= 1)
      && (forall i, j :: 0 <= i < j < |t| ==> t[i].count >= t[j].count)
      && (limit >= 1 ==> (t == [] <==> s == []))
      && (t != [] ==> forall x :: multiset(s)[x] <= multiset(s)[t[0].key])
    ensures TopSelection(PyPrefix(ValueCounts(s), limit), (set x | x in s), x => multiset(s)[x], limit)
    ensures limit >= |set x | x in s| ==> Keys(PyPrefix(ValueCounts(s), limit)) == set x | x in s
  {
    ValueCountsSelect(s, limit);
    var vc := ValueCounts(s);
    ValueCountsProps(s);
    var t := PyPrefix(vc, limit);
    assert t == vc[..|t|];
    if s != [] {
      ValueCountsTop(s);
    }
  }
}
