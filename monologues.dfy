/** `detect_monologues`: runs of consecutive messages by one author, and each cleaned
    name's total over the runs that are long enough. */
module Monologues {
  import opened Wrappers
  import opened Seqs
  import opened Sorting
  import opened Tally
  import opened TextUtils
  import opened Chat
  import opened Frame

  // ---------------------------------------------------------------- runs

  /** A maximal block of consecutive messages by one raw author. */
  datatype Run = Run(author: string, count: nat)

  /** The runs of a sequence of authors, in order. */
  function Runs(s: seq<string>): (r: seq<Run>)
    ensures s == [] <==> r == []
  {
    if s == [] then [] else Extend(Runs(s[..|s| - 1]), s[|s| - 1])
  }

  /** One more message by `x` lengthens the last run when it is also by `x`, and
      opens a new run otherwise. */
  function Extend(r: seq<Run>, x: string): (r': seq<Run>)
    ensures r' != []
  {
    if r != [] && r[|r| - 1].author == x then r[..|r| - 1] + [Run(x, r[|r| - 1].count + 1)]
    else r + [Run(x, 1)]
  }

  /** `c` copies of `x`. */
  function Repeat(x: string, c: nat): seq<string>
  {
    if c == 0 then [] else Repeat(x, c - 1) + [x]
  }

  /** The authors the runs stand for, each repeated as often as its run counts. */
  function Expand(runs: seq<Run>): seq<string>
  {
    if runs == [] then []
    else Expand(runs[..|runs| - 1]) + Repeat(runs[|runs| - 1].author, runs[|runs| - 1].count)
  }

  lemma {:induction false} ExpandAppend(t: seq<Run>, run: Run)
    ensures Expand(t + [run]) == Expand(t) + Repeat(run.author, run.count)
  {
    assert (t + [run])[..|t|] == t;
  }

  lemma RunsAppend(init: seq<string>, x: string)
    ensures Runs(init + [x]) == Extend(Runs(init), x)
  {
    assert (init + [x])[..|init|] == init;
  }

  /** Extending the runs by `x` extends what they stand for by `x`. */
  lemma ExtendExpand(r: seq<Run>, x: string)
    ensures Expand(Extend(r, x)) == Expand(r) + [x]
  {
    if r != [] && r[|r| - 1].author == x {
      var last := r[|r| - 1];
      var front := r[..|r| - 1];
      assert r == front + [last];
      ExpandAppend(front, last);
      ExpandAppend(front, Run(x, last.count + 1));
    } else {
      ExpandAppend(r, Run(x, 1));
      assert Repeat(x, 1) == [x];
    }
  }

  /** Runs are a lossless encoding of the authors: expanding them gives the authors
      back. */
  lemma {:induction false} RunsExpand(s: seq<string>)
    ensures Expand(Runs(s)) == s
    decreases |s|
  {
    if s != [] {
      var init, x := s[..|s| - 1], s[|s| - 1];
      assert s == init + [x];
      RunsExpand(init);
      ExtendExpand(Runs(init), x);
    }
  }

  /** Every run has at least one message, and neighbouring runs have different
      authors, so no run could be longer. */
  predicate MaximalRuns(r: seq<Run>)
  {
    && (forall i :: 0 <= i < |r| ==> r[i].count >= 1)
    && (forall i :: 0 <= i < |r| - 1 ==> r[i].author != r[i + 1].author)
  }

  lemma ExtendMaximal(r: seq<Run>, x: string)
    requires MaximalRuns(r)
    ensures MaximalRuns(Extend(r, x))
  {
    var nr := Extend(r, x);
    if r != [] && r[|r| - 1].author == x {
      assert forall i :: 0 <= i < |r| - 1 ==> nr[i] == r[i];
    } else {
      assert forall i :: 0 <= i < |r| ==> nr[i] == r[i];
    }
  }

  /** The runs of any authors are maximal. */
  lemma {:induction false} RunsMaximal(s: seq<string>)
    ensures MaximalRuns(Runs(s))
    decreases |s|
  {
    if s != [] {
      RunsMaximal(s[..|s| - 1]);
      ExtendMaximal(Runs(s[..|s| - 1]), s[|s| - 1]);
    }
  }

  /** Three messages by `a`, one by a different author `b` and two by `a` make three
      runs; with a minimum of three only the first is a monologue, so `a` is credited
      with three messages, not five. */
  lemma RunsExample(u: Unicode, a: string, b: string)
    requires a != b
    ensures Runs([a, a, a, b, a, a]) == [Run(a, 3), Run(b, 1), Run(a, 2)]
    ensures MonologueData(u, [a, a, a, b, a, a], 3) == [Entry(CleanName(u, a, DisplayWidth), 3)]
    ensures CountOf(MonologueData(u, [a, a, a, b, a, a], 3), CleanName(u, a, DisplayWidth)) == 3
  {
    assert [a, a][..1] == [a];
    assert Runs([a, a]) == [Run(a, 2)];
    assert [a, a, a][..2] == [a, a];
    assert Runs([a, a, a]) == [Run(a, 3)];
    assert [a, a, a, b][..3] == [a, a, a];
    assert Runs([a, a, a, b]) == [Run(a, 3), Run(b, 1)];
    assert [a, a, a, b, a][..4] == [a, a, a, b];
    assert Runs([a, a, a, b, a]) == [Run(a, 3), Run(b, 1), Run(a, 1)];
    assert [a, a, a, b, a, a][..5] == [a, a, a, b, a];
    var runs := [Run(a, 3), Run(b, 1), Run(a, 2)];
    assert runs[..2][..1] == [Run(a, 3)] && runs[..1][..0] == [];
    assert Recorded(u, runs[..1], 3) == [Entry(CleanName(u, a, DisplayWidth), 3)];
    assert Recorded(u, runs[..2], 3) == Recorded(u, runs[..1], 3);
    var md := [Entry(CleanName(u, a, DisplayWidth), 3)];
    assert md[..0] == [];
  }

  // ---------------------------------------------------------------- the recorded runs

  /** `clean_name(current_author)`: `clean_name` turns anything that is not a string,
      here the initial `None`, into its `str`. */
  function CleanCurrent(u: Unicode, current: Option<string>): string
  {
    if current.None? then "None" else CleanName(u, current.value, DisplayWidth)
  }

  /** The runs long enough to be recorded, with cleaned names. */
  function Recorded(u: Unicode, runs: seq<Run>, minConsecutive: int): seq<Entry<string>>
  {
    if runs == [] then []
    else
      var last := runs[|runs| - 1];
      Recorded(u, runs[..|runs| - 1], minConsecutive) + Closed(u, Some(last.author), last.count, minConsecutive)
  }

  /** Closing the run of `current` with `count` messages records it when it is long
      enough. */
  function Closed(u: Unicode, current: Option<string>, count: nat, minConsecutive: int): seq<Entry<string>>
  {
    if count >= minConsecutive then [Entry(CleanCurrent(u, current), count)] else []
  }

  /** The entry recorded for the empty run before the first message: its count 0 is
      long enough exactly when the minimum is at most 0. */
  function Leading(minConsecutive: int): seq<Entry<string>>
  {
    if minConsecutive <= 0 then [Entry("None", 0)] else []
  }

  /** `monologue_data` for the authors in time order. */
  function MonologueData(u: Unicode, authors: seq<string>, minConsecutive: int): seq<Entry<string>>
  {
    Leading(minConsecutive) + Recorded(u, Runs(authors), minConsecutive)
  }

  /** A run is recorded exactly when it is long enough: every recorded entry is a long
      enough run under its cleaned name, and every long enough run is recorded. */
  lemma {:induction false} RecordedProps(u: Unicode, runs: seq<Run>, minConsecutive: int)
    ensures forall e :: e in Recorded(u, runs, minConsecutive) ==>
      exists r :: r in runs && r.count >= minConsecutive && e == Entry(CleanName(u, r.author, DisplayWidth), r.count)
    ensures forall r :: r in runs && r.count >= minConsecutive ==>
      Entry(CleanName(u, r.author, DisplayWidth), r.count) in Recorded(u, runs, minConsecutive)
    decreases |runs|
  {
    if runs != [] {
      var init, last := runs[..|runs| - 1], runs[|runs| - 1];
      RecordedProps(u, init, minConsecutive);
      assert runs == init + [last];
      forall e | e in Recorded(u, runs, minConsecutive)
        ensures exists r :: r in runs && r.count >= minConsecutive && e == Entry(CleanName(u, r.author, DisplayWidth), r.count)
      {
        if e in Recorded(u, init, minConsecutive) {
          var r :| r in init && r.count >= minConsecutive && e == Entry(CleanName(u, r.author, DisplayWidth), r.count);
          assert r in runs;
        } else {
          assert last in runs;
        }
      }
    }
  }

  /** Nothing is recorded exactly when the minimum is positive and every run is
      shorter than it. */
  lemma NothingRecorded(u: Unicode, authors: seq<string>, minConsecutive: int)
    ensures MonologueData(u, authors, minConsecutive) == [] <==>
      minConsecutive > 0 && forall r :: r in Runs(authors) ==> r.count < minConsecutive
  {
    var rec := Recorded(u, Runs(authors), minConsecutive);
    RecordedProps(u, Runs(authors), minConsecutive);
    if rec != [] {
      assert rec[0] in rec;
    }
    if minConsecutive > 0 && exists r :: r in Runs(authors) && r.count >= minConsecutive {
      var r :| r in Runs(authors) && r.count >= minConsecutive;
      assert Entry(CleanName(u, r.author, DisplayWidth), r.count) in MonologueData(u, authors, minConsecutive);
    }
  }

  // ---------------------------------------------------------------- totals per name

  /** `totals[x] += c` on a `defaultdict(int)` kept in insertion order. */
  function Add<K(==)>(t: seq<Entry<K>>, x: K, c: nat): seq<Entry<K>>
  {
    if t == [] then [Entry(x, c)]
    else if t[0].key == x then [Entry(x, t[0].count + c)] + t[1..]
    else [t[0]] + Add(t[1..], x, c)
  }

  /** The totals dictionary after adding up `items` in order. */
  function Totals<K(==)>(items: seq<Entry<K>>): seq<Entry<K>>
  {
    if items == [] then []
    else
      var last := items[|items| - 1];
      Add(Totals(items[..|items| - 1]), last.key, last.count)
  }

  /** The sum of the counts of the items with key `x`. */
  function CountOf<K(==)>(items: seq<Entry<K>>, x: K): nat
  {
    if items == [] then 0
    else
      var last := items[|items| - 1];
      CountOf(items[..|items| - 1], x) + (if last.key == x then last.count else 0)
  }

  lemma {:induction false} AddProps<K>(t: seq<Entry<K>>, x: K, c: nat)
    requires DistinctKeys(t)
    ensures DistinctKeys(Add(t, x, c))
    ensures forall y :: Lookup(Add(t, x, c), y) == Lookup(t, y) + (if y == x then c else 0)
    ensures Keys(Add(t, x, c)) == Keys(t) + {x}
    decreases |t|
  {
    if t != [] && t[0].key != x {
      AddProps(t[1..], x, c);
      assert Add(t, x, c)[1..] == Add(t[1..], x, c);
    } else if t != [] {
      assert Add(t, x, c)[1..] == t[1..];
    }
  }

  /** The totals hold one entry per distinct name, with the sum of that name's counts. */
  lemma {:induction false} TotalsProps<K>(items: seq<Entry<K>>)
    ensures DistinctKeys(Totals(items))
    ensures forall y :: Lookup(Totals(items), y) == CountOf(items, y)
    ensures Keys(Totals(items)) == Keys(items)
    decreases |items|
  {
    if items != [] {
      var init, last := items[..|items| - 1], items[|items| - 1];
      TotalsProps(init);
      AddProps(Totals(init), last.key, last.count);
      assert items == init + [last];
      KeysAppend(init, last);
    }
  }

  // ---------------------------------------------------------------- detect_monologues

  datatype MonologueReport = MonologueReport(data: seq<Entry<string>>, topMonologuer: Option<string>)

  /** The ten largest totals, largest first (`sorted(..., reverse=True)` is stable). */
  function Ranked(items: seq<Entry<string>>): seq<Entry<string>>
  {
    PyPrefix(SortBy(Totals(items), DescCount), 10)
  }

  /** What `detect_monologues(min_consecutive)` returns for the messages `df`. */
  function Monologues(u: Unicode, df: seq<Message>, minConsecutive: int): MonologueReport
  {
    var items := MonologueData(u, Authors(ByTime(df)), minConsecutive);
    if items == [] then MonologueReport([], None)
    else
      var ranked := Ranked(items);
      MonologueReport(ranked, if ranked == [] then None else Some(ranked[0].key))
  }

  /** The state of the run loop once the runs so far are `r`: the open run is the
      last run, and the closed runs have been recorded. */
  predicate Scanned(u: Unicode, r: seq<Run>, minConsecutive: int,
                    items: seq<Entry<string>>, current: Option<string>, count: nat)
  {
    if r == [] then current == None && count == 0 && items == []
    else
      && current == Some(r[|r| - 1].author)
      && count == r[|r| - 1].count
      && items == Leading(minConsecutive) + Recorded(u, r[..|r| - 1], minConsecutive)
  }

  /** One loop step: the same author lengthens the open run; another author closes
      it, recording it when long enough, and opens a new one. */
  lemma ScanStep(u: Unicode, r: seq<Run>, x: string, minConsecutive: int,
                 items: seq<Entry<string>>, current: Option<string>, count: nat)
    requires Scanned(u, r, minConsecutive, items, current, count)
    ensures current == Some(x) ==> Scanned(u, Extend(r, x), minConsecutive, items, current, count + 1)
    ensures current != Some(x) ==>
      Scanned(u, Extend(r, x), minConsecutive, items + Closed(u, current, count, minConsecutive), Some(x), 1)
  {
    var nr := Extend(r, x);
    if r != [] {
      if current == Some(x) {
        assert nr[..|nr| - 1] == r[..|r| - 1];
      } else {
        assert nr[..|nr| - 1] == r;
        ScanEnd(u, r, minConsecutive, items, current, count);
      }
    } else {
      assert nr == [Run(x, 1)] && nr[..0] == [];
    }
  }

  /** After the loop the open run is closed too. */
  lemma ScanEnd(u: Unicode, r: seq<Run>, minConsecutive: int,
                items: seq<Entry<string>>, current: Option<string>, count: nat)
    requires Scanned(u, r, minConsecutive, items, current, count)
    ensures items + Closed(u, current, count, minConsecutive) == Leading(minConsecutive) + Recorded(u, r, minConsecutive)
  {
    var lead := Leading(minConsecutive);
    if r != [] {
      var init := r[..|r| - 1];
      var closed := Closed(u, current, count, minConsecutive);
      calc {
        items + closed;
        (lead + Recorded(u, init, minConsecutive)) + closed;
        lead + (Recorded(u, init, minConsecutive) + closed);
        lead + Recorded(u, r, minConsecutive);
      }
    } else {
      assert items == [] && lead == Closed(u, current, count, minConsecutive);
      assert Recorded(u, r, minConsecutive) == [];
    }
  }

  /** `ScanStep` on the runs of a prefix that grows by one author. */
  lemma ScanNext(u: Unicode, a: seq<string>, i: nat, minConsecutive: int,
                 items: seq<Entry<string>>, current: Option<string>, count: nat)
    requires i < |a|
    requires Scanned(u, Runs(a[..i]), minConsecutive, items, current, count)
    ensures current == Some(a[i]) ==> Scanned(u, Runs(a[..i + 1]), minConsecutive, items, current, count + 1)
    ensures current != Some(a[i]) ==>
      Scanned(u, Runs(a[..i + 1]), minConsecutive, items + Closed(u, current, count, minConsecutive), Some(a[i]), 1)
  {
    assert a[..i + 1] == a[..i] + [a[i]];
    RunsAppend(a[..i], a[i]);
    ScanStep(u, Runs(a[..i]), a[i], minConsecutive, items, current, count);
  }

  /** The first pass of `detect_monologues`: the recorded runs of the authors `a`. */
  method RecordRuns(u: Unicode, a: seq<string>, minConsecutive: int) returns (items: seq<Entry<string>>)
    ensures items == MonologueData(u, a, minConsecutive)
  {
    items := [];
    var current: Option<string> := None;
    var count: nat := 0;
    var i := 0;
    while i < |a|
      invariant 0 <= i <= |a|
      invariant Scanned(u, Runs(a[..i]), minConsecutive, items, current, count)
    {
      ScanNext(u, a, i, minConsecutive, items, current, count);
      if current == Some(a[i]) {
        count := count + 1;
      } else {
        if count >= minConsecutive {
          items := items + [Entry(CleanCurrent(u, current), count)];
        } else {
          assert items + Closed(u, current, count, minConsecutive) == items;
        }
        current := Some(a[i]);
        count := 1;
      }
      i := i + 1;
    }
    ScanEnd(u, Runs(a[..i]), minConsecutive, items, current, count);
    assert a[..i] == a;
    if count >= minConsecutive {
      items := items + [Entry(CleanCurrent(u, current), count)];
    } else {
      assert items + Closed(u, current, count, minConsecutive) == items;
    }
  }

  /** The second pass: the totals per name, in order of first appearance. */
  method SumTotals(items: seq<Entry<string>>) returns (totals: seq<Entry<string>>)
    ensures totals == Totals(items)
  {
    totals := [];
    var j := 0;
    while j < |items|
      invariant 0 <= j <= |items|
      invariant totals == Totals(items[..j])
    {
      assert items[..j + 1][..j] == items[..j];
      totals := Add(totals, items[j].key, items[j].count);
      j := j + 1;
    }
    assert items[..j] == items;
  }

  /** `detect_monologues(min_consecutive)` on the messages in time order. */
  method DetectMonologues(u: Unicode, df: seq<Message>, minConsecutive: int) returns (r: MonologueReport)
    ensures r == Monologues(u, df, minConsecutive)
  {
    var items := RecordRuns(u, Authors(ByTime(df)), minConsecutive);
    if items == [] {
      return MonologueReport([], None);
    }
    var totals := SumTotals(items);
    var ranked := PyPrefix(SortBy(totals, DescCount), 10);
    r := MonologueReport(ranked, if ranked == [] then None else Some(ranked[0].key));
  }

  /** The ranked totals: at most ten distinct names, each with the sum of its
      counts, largest first, and the first has the largest sum of every name. */
  lemma RankedProps(items: seq<Entry<string>>)
    ensures var r := Ranked(items);
      && |r| <= 10
      && (forall i, j :: 0 <= i < j < |r| ==> r[i].key != r[j].key)
      && (forall i :: 0 <= i < |r| ==> r[i].count == CountOf(items, r[i].key))
      && (forall i, j :: 0 <= i < j < |r| ==> r[i].count >= r[j].count)
  {
    var totals := Totals(items);
    var sorted := SortBy(totals, DescCount);
    TotalsProps(items);
    SortEntries(totals);
    SortBySorted(totals, DescCount);
    SortByPermutation(totals, DescCount);
    DistinctKeysAt(sorted);
    assert Ranked(items) == sorted[..|Ranked(items)|];
    forall i | 0 <= i < |sorted| ensures sorted[i].count == CountOf(items, sorted[i].key) {
      assert sorted[i] in multiset(totals);
      var j :| 0 <= j < |totals| && totals[j] == sorted[i];
      LookupAt(totals, j);
    }
    forall i, j | 0 <= i < j < |sorted| ensures sorted[i].count >= sorted[j].count {
      assert DescCount(sorted[i]) <= DescCount(sorted[j]);
    }
  }

  /** The ranked totals are the ten largest: no name left out has a larger total than
      a ranked one, and with ten names or fewer every name is ranked. */
  lemma RankedSelect(items: seq<Entry<string>>)
    ensures TopSelection(Ranked(items), Keys(items), x => CountOf(items, x), 10)
    ensures |Keys(items)| <= 10 ==> Keys(Ranked(items)) == Keys(items)
  {
    RankedRanks(items);
    if |Keys(items)| <= 10 {
      var totals := Totals(items);
      TotalsProps(items);
      SortedEntries(totals);
      assert Ranked(items) == SortBy(totals, DescCount);
    }
  }

  /** Helper: the selection property, transferred from the totals table. */
  lemma RankedRanks(items: seq<Entry<string>>)
    ensures TopSelection(Ranked(items), Keys(items), x => CountOf(items, x), 10)
  {
    var totals := Totals(items);
    TotalsProps(items);
    SortedHead(totals, 10);
    assert Ranked(items) == PyPrefix(SortBy(totals, DescCount), 10);
    TopSelectionSame(Ranked(items), Keys(items), x => Lookup(totals, x), x => CountOf(items, x), 10);
  }

  lemma RankedTop(items: seq<Entry<string>>, x: string)
    requires items != []
    ensures Ranked(items) != []
    ensures CountOf(items, x) <= Ranked(items)[0].count
  {
    var totals := Totals(items);
    var sorted := SortBy(totals, DescCount);
    TotalsProps(items);
    SortEntries(totals);
    SortBySorted(totals, DescCount);
    SortByPermutation(totals, DescCount);
    KeysIndex(items, items[0].key);
    KeysIndex(totals, items[0].key);
    assert |sorted| > 0;
    assert Ranked(items)[0] == sorted[0];
    KeysIndex(totals, x);
    if x in Keys(totals) {
      var j :| 0 <= j < |totals| && totals[j].key == x;
      LookupAt(totals, j);
      assert totals[j] in multiset(sorted);
      var i :| 0 <= i < |sorted| && sorted[i] == totals[j];
      assert DescCount(sorted[0]) <= DescCount(sorted[i]);
    } else {
      LookupAbsent(totals, x);
    }
  }

  /** At most ten distinct names, each with the total length of its recorded runs,
      largest first; there is a top monologuer exactly when something was recorded,
      and it has the largest total of every name. */
  lemma MonologuesProps(u: Unicode, df: seq<Message>, minConsecutive: int)
    ensures var r := Monologues(u, df, minConsecutive);
      var items := MonologueData(u, Authors(ByTime(df)), minConsecutive);
      && |r.data| <= 10
      && (forall i, j :: 0 <= i < j < |r.data| ==> r.data[i].key != r.data[j].key)
      && (forall i :: 0 <= i < |r.data| ==> r.data[i].count == CountOf(items, r.data[i].key))
      && (forall i, j :: 0 <= i < j < |r.data| ==> r.data[i].count >= r.data[j].count)
      && (r.topMonologuer.None? <==> items == [])
      && (items == [] ==> r.data == [])
      && (r.topMonologuer.Some? ==> r.data != [] && r.topMonologuer.value == r.data[0].key)
      && (r.topMonologuer.Some? ==> forall x :: CountOf(items, x) <= CountOf(items, r.topMonologuer.value))
      && TopSelection(r.data, Keys(items), x => CountOf(items, x), 10)
      && (|Keys(items)| <= 10 ==> Keys(r.data) == Keys(items))
  {
    var items := MonologueData(u, Authors(ByTime(df)), minConsecutive);
    RankedProps(items);
    RankedSelect(items);
    if items != [] {
      var r := Ranked(items);
      RankedTop(items, items[0].key);
      forall x ensures CountOf(items, x) <= CountOf(items, r[0].key) {
        RankedTop(items, x);
      }
    }
  }

  lemma {:induction false} LookupAbsent<K>(t: seq<Entry<K>>, x: K)
    requires x !in Keys(t)
    ensures Lookup(t, x) == 0
    decreases |t|
  {
    if t != [] {
      LookupAbsent(t[1..], x);
    }
  }
}
