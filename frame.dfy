/** The columns `ChatAnalyzer` derives from the parsed messages, and the building blocks
    its analyses share: time order, the reply rule, the top-author selection of
    `value_counts().head(limit)`, and per-author means over a selection of rows. */
module Frame {
  import opened Wrappers
  import opened Seqs
  import opened Sorting
  import opened Tally
  import opened TextUtils
  import opened Chat

  // ---------------------------------------------------------------- derived columns

  /** The `CleanAuthor` column: the author cleaned for display. */
  function CleanAuthor(u: Unicode, msg: Message): string
  {
    CleanName(u, msg.author, DisplayWidth)
  }

  function CleanAuthors(u: Unicode, df: seq<Message>): (r: seq<string>)
    ensures |r| == |df|
    ensures forall i :: 0 <= i < |df| ==> r[i] == CleanAuthor(u, df[i])
  {
    seq(|df|, i requires 0 <= i < |df| => CleanAuthor(u, df[i]))
  }

  /** Every row gets a display name: never empty, at most `DisplayWidth` characters
      plus the `..` of a cut name, and an author whose name is already clean and short
      enough is shown unchanged. */
  lemma CleanAuthorsProps(u: Unicode, df: seq<Message>)
    ensures |CleanAuthors(u, df)| == |df|
    ensures forall i :: 0 <= i < |df| ==>
      CleanAuthors(u, df)[i] != [] && |CleanAuthors(u, df)[i]| <= DisplayWidth + 2
    ensures forall i :: 0 <= i < |df| ==>
      (Cleaned(u, df[i].author) == df[i].author && 0 < |df[i].author| <= DisplayWidth ==>
       CleanAuthors(u, df)[i] == df[i].author)
  {
    forall i | 0 <= i < |df|
      ensures |CleanAuthors(u, df)[i]| <= DisplayWidth + 2
      ensures Cleaned(u, df[i].author) == df[i].author && 0 < |df[i].author| <= DisplayWidth ==>
        CleanAuthors(u, df)[i] == df[i].author
    {
      CleanNameCases(u, df[i].author, DisplayWidth);
    }
  }

  /** The `Author` column. */
  function Authors(df: seq<Message>): (r: seq<string>)
    ensures |r| == |df|
    ensures forall i :: 0 <= i < |df| ==> r[i] == df[i].author
  {
    seq(|df|, i requires 0 <= i < |df| => df[i].author)
  }

  /** The `msg_length` column: the message's length in characters. */
  function Length(msg: Message): nat
  {
    |msg.body|
  }

  // ---------------------------------------------------------------- time order

  function StampKey(msg: Message): real
  {
    msg.stamp as real
  }

  /** `sort_values('DateTime')`, with messages of equal timestamp kept in their order. */
  function ByTime(df: seq<Message>): seq<Message>
  {
    SortBy(df, StampKey)
  }

  /** Sorting by time reorders the messages and nothing else: the result is ordered by
      timestamp, holds the same messages, and keeps equal-time messages in order. */
  lemma ByTimeProps(df: seq<Message>)
    ensures |ByTime(df)| == |df|
    ensures forall i, j :: 0 <= i < j < |ByTime(df)| ==> ByTime(df)[i].stamp <= ByTime(df)[j].stamp
    ensures multiset(ByTime(df)) == multiset(df)
    ensures forall k :: WithKey(ByTime(df), StampKey, k) == WithKey(df, StampKey, k)
  {
    SortBySorted(df, StampKey);
    SortByPermutation(df, StampKey);
    forall k ensures WithKey(ByTime(df), StampKey, k) == WithKey(df, StampKey, k) {
      SortByStable(df, StampKey, k);
    }
    forall i, j | 0 <= i < j < |ByTime(df)| ensures ByTime(df)[i].stamp <= ByTime(df)[j].stamp {
      assert StampKey(ByTime(df)[i]) <= StampKey(ByTime(df)[j]);
    }
  }

  // ---------------------------------------------------------------- replies

  /** Twelve hours: a reply must come sooner than this. */
  const ReplyWindow := 12 * SecondsPerHour

  /** Message `i` of the time-ordered rows is a reply: its raw author differs from the
      previous message's, and it comes strictly after it and less than 12 hours later.
      The first message has no previous one and is never a reply. */
  predicate IsReply(s: seq<Message>, i: nat)
    requires i < |s|
  {
    i > 0 && s[i].author != s[i - 1].author && 0 < s[i].stamp - s[i - 1].stamp < ReplyWindow
  }

  /** A reply's cleaned author and its gap in seconds (the `Time_Diff` column holds the
      gap in minutes, that is `gap / 60`). */
  datatype Reply = Reply(clean: string, gap: int)

  function RepliesUpTo(u: Unicode, s: seq<Message>, n: nat): seq<Reply>
    requires n <= |s|
  {
    if n == 0 then [] else RepliesUpTo(u, s, n - 1) + ReplyPart(u, s, n - 1)
  }

  /** The reply message `i` makes, if it is one. */
  function ReplyPart(u: Unicode, s: seq<Message>, i: nat): seq<Reply>
    requires i < |s|
  {
    if IsReply(s, i) then [Reply(CleanAuthor(u, s[i]), s[i].stamp - s[i - 1].stamp)] else []
  }

  /** The replies of the rows `s`. */
  function Replies(u: Unicode, s: seq<Message>): seq<Reply>
  {
    RepliesUpTo(u, s, |s|)
  }

  /** Each selected reply comes from a message satisfying the reply rule, and there is
      none exactly when no message satisfies it. */
  lemma RepliesUpToProps(u: Unicode, s: seq<Message>, n: nat)
    requires n <= |s|
    ensures forall r :: r in RepliesUpTo(u, s, n) ==>
      exists i :: 0 < i < n && IsReply(s, i) && r == Reply(CleanAuthor(u, s[i]), s[i].stamp - s[i - 1].stamp)
    ensures forall r :: r in RepliesUpTo(u, s, n) ==> 0 < r.gap < ReplyWindow
    ensures RepliesUpTo(u, s, n) == [] <==> forall i :: 0 <= i < n ==> !IsReply(s, i)
    ensures |RepliesUpTo(u, s, n)| < n || n == 0
  {
    RepliesUpToSound(u, s, n);
    RepliesUpToEmpty(u, s, n);
    RepliesUpToLength(u, s, n);
  }

  lemma {:induction false} RepliesUpToSound(u: Unicode, s: seq<Message>, n: nat)
    requires n <= |s|
    ensures forall r :: r in RepliesUpTo(u, s, n) ==>
      exists i :: 0 < i < n && IsReply(s, i) && r == Reply(CleanAuthor(u, s[i]), s[i].stamp - s[i - 1].stamp)
    ensures forall r :: r in RepliesUpTo(u, s, n) ==> 0 < r.gap < ReplyWindow
  {
    if n > 0 {
      RepliesUpToSound(u, s, n - 1);
      var before := RepliesUpTo(u, s, n - 1);
      var part := ReplyPart(u, s, n - 1);
      assert RepliesUpTo(u, s, n) == before + part;
      forall r | r in before + part
        ensures exists i :: 0 < i < n && IsReply(s, i) && r == Reply(CleanAuthor(u, s[i]), s[i].stamp - s[i - 1].stamp)
        ensures 0 < r.gap < ReplyWindow
      {
        if r !in before {
          assert r in part;
          assert IsReply(s, n - 1);
        }
      }
    }
  }

  lemma {:induction false} RepliesUpToEmpty(u: Unicode, s: seq<Message>, n: nat)
    requires n <= |s|
    ensures RepliesUpTo(u, s, n) == [] <==> forall i :: 0 <= i < n ==> !IsReply(s, i)
  {
    if n > 0 {
      RepliesUpToEmpty(u, s, n - 1);
      assert RepliesUpTo(u, s, n) == RepliesUpTo(u, s, n - 1) + ReplyPart(u, s, n - 1);
    }
  }

  lemma {:induction false} RepliesUpToLength(u: Unicode, s: seq<Message>, n: nat)
    requires n <= |s|
    ensures |RepliesUpTo(u, s, n)| < n || n == 0
  {
    if n > 1 {
      RepliesUpToLength(u, s, n - 1);
    } else if n == 1 {
      assert !IsReply(s, 0);
      assert RepliesUpTo(u, s, 1) == RepliesUpTo(u, s, 0) + [];
    }
  }

  lemma RepliesProps(u: Unicode, s: seq<Message>)
    ensures forall r :: r in Replies(u, s) ==>
      exists i :: 0 < i < |s| && IsReply(s, i) && r == Reply(CleanAuthor(u, s[i]), s[i].stamp - s[i - 1].stamp)
    ensures forall r :: r in Replies(u, s) ==> 0 < r.gap < ReplyWindow
    ensures Replies(u, s) == [] <==> forall i :: 0 <= i < |s| ==> !IsReply(s, i)
  {
    RepliesUpToProps(u, s, |s|);
  }

  /** The replies of the whole chat, in time order. */
  function ChatReplies(u: Unicode, df: seq<Message>): seq<Reply>
  {
    Replies(u, ByTime(df))
  }

  /** Gaps in minutes, as the `Time_Diff` column holds them. */
  function Minutes(gap: int): real
  {
    gap as real / SecondsPerMinute as real
  }

  function GapSum(rs: seq<Reply>): real
  {
    if rs == [] then 0.0 else GapSum(rs[..|rs| - 1]) + Minutes(rs[|rs| - 1].gap)
  }

  /** `replies['Time_Diff'].mean()`: the mean reply time in minutes, `None` (NaN) for no
      replies. */
  function MeanGap(rs: seq<Reply>): Option<real>
  {
    if rs == [] then None else Some(GapSum(rs) / |rs| as real)
  }

  /** Replies whose cleaned author is `name`. */
  function RepliesBy(rs: seq<Reply>, name: string): seq<Reply>
  {
    if rs == [] then [] else RepliesBy(rs[..|rs| - 1], name) + (if rs[|rs| - 1].clean == name then [rs[|rs| - 1]] else [])
  }

  /** Replies whose cleaned author is one of `names` (`isin`). */
  function RepliesAmong(rs: seq<Reply>, names: seq<string>): seq<Reply>
  {
    if rs == [] then [] else RepliesAmong(rs[..|rs| - 1], names) + AmongPart(rs[|rs| - 1], names)
  }

  /** `[r]` when its author is one of `names`, else nothing. */
  function AmongPart(r: Reply, names: seq<string>): seq<Reply>
  {
    if r.clean in names then [r] else []
  }

  lemma RepliesByAppend(rs: seq<Reply>, r: Reply, name: string)
    ensures RepliesBy(rs + [r], name) == RepliesBy(rs, name) + (if r.clean == name then [r] else [])
  {
    assert (rs + [r])[..|rs|] == rs;
  }

  /** Restricting the replies to `names` keeps every reply by a listed name and drops
      every reply by another; none is left exactly when no reply is by a listed name. */
  lemma RepliesAmongProps(rs: seq<Reply>, names: seq<string>, name: string)
    ensures name in names ==> RepliesBy(RepliesAmong(rs, names), name) == RepliesBy(rs, name)
    ensures name !in names ==> RepliesBy(RepliesAmong(rs, names), name) == []
    ensures RepliesAmong(rs, names) == [] <==> forall r :: r in rs ==> r.clean !in names
  {
    RepliesByAmong(rs, names, name);
    RepliesAmongEmpty(rs, names);
  }

  lemma {:induction false} RepliesByAmong(rs: seq<Reply>, names: seq<string>, name: string)
    ensures RepliesBy(RepliesAmong(rs, names), name) == if name in names then RepliesBy(rs, name) else []
    decreases |rs|
  {
    if rs != [] {
      var init := rs[..|rs| - 1];
      var last := rs[|rs| - 1];
      RepliesByAmong(init, names, name);
      var before := RepliesAmong(init, names);
      if last.clean in names {
        assert RepliesAmong(rs, names) == before + [last];
        RepliesByAppend(before, last, name);
      } else {
        assert RepliesAmong(rs, names) == before;
      }
    }
  }

  lemma {:induction false} RepliesAmongEmpty(rs: seq<Reply>, names: seq<string>)
    ensures RepliesAmong(rs, names) == [] <==> forall r :: r in rs ==> r.clean !in names
    decreases |rs|
  {
    if rs != [] {
      var init := rs[..|rs| - 1];
      var last := rs[|rs| - 1];
      RepliesAmongEmpty(init, names);
      assert rs == init + [last];
      assert RepliesAmong(rs, names) == RepliesAmong(init, names) + AmongPart(last, names);
      if last.clean in names {
        assert last in rs;
      }
    }
  }

  // ---------------------------------------------------------------- ratios

  /** `count / total * 100`: the share of `count` in `total`, as a percentage. */
  function Percent(count: nat, total: nat): (p: real)
    requires total > 0
    ensures p * total as real == 100.0 * count as real
    ensures count <= total ==> 0.0 <= p <= 100.0
  {
    var q := count as real / total as real;
    assert q * total as real == count as real;
    q * 100.0
  }

  /** `x / d` for a positive count `d`: the mean of `d` parts adding up to `x`. */
  function Quotient(x: real, d: nat): (q: real)
    requires d > 0
    ensures q * d as real == x
  {
    x / d as real
  }

  // ---------------------------------------------------------------- top authors

  function EntryKeys<K>(t: seq<Entry<K>>): (r: seq<K>)
    ensures |r| == |t|
    ensures forall i :: 0 <= i < |t| ==> r[i] == t[i].key
  {
    seq(|t|, i requires 0 <= i < |t| => t[i].key)
  }

  /** `df['CleanAuthor'].value_counts().head(limit)`. */
  function TopCounts(u: Unicode, df: seq<Message>, limit: int): seq<Entry<string>>
  {
    PyPrefix(ValueCounts(CleanAuthors(u, df)), limit)
  }

  /** `df['CleanAuthor'].value_counts().head(limit).index`. */
  function TopAuthors(u: Unicode, df: seq<Message>, limit: int): seq<string>
  {
    EntryKeys(TopCounts(u, df, limit))
  }

  /** The keys of `value_counts().head(limit)` of `names`. */
  function TopOf(names: seq<string>, limit: int): seq<string>
  {
    EntryKeys(PyPrefix(ValueCounts(names), limit))
  }

  lemma TopOfDistinct(names: seq<string>, limit: int)
    ensures limit >= 0 ==> |TopOf(names, limit)| <= limit
    ensures forall i, j :: 0 <= i < j < |TopOf(names, limit)| ==> TopOf(names, limit)[i] != TopOf(names, limit)[j]
  {
    var vc := ValueCounts(names);
    var head := PyPrefix(vc, limit);
    ValueCountsProps(names);
    assert head == vc[..|head|];
  }

  lemma TopOfMembers(names: seq<string>, limit: int)
    ensures forall x :: x in TopOf(names, limit) ==> x in names
  {
    var vc := ValueCounts(names);
    var head := PyPrefix(vc, limit);
    var top := TopOf(names, limit);
    ValueCountsProps(names);
    assert head == vc[..|head|];
    forall x | x in top ensures x in names {
      var i :| 0 <= i < |top| && top[i] == x;
      assert vc[i].key == x;
      KeysIndex(vc, x);
    }
  }

  lemma TopOfDominates(names: seq<string>, limit: int, x: string, y: string)
    requires x in TopOf(names, limit) && y in names && y !in TopOf(names, limit)
    ensures multiset(names)[y] <= multiset(names)[x]
  {
    var vc := ValueCounts(names);
    var head := PyPrefix(vc, limit);
    var top := TopOf(names, limit);
    ValueCountsProps(names);
    assert head == vc[..|head|];
    var i :| 0 <= i < |top| && top[i] == x;
    ValueCountsCovers(names, y);
    var j :| 0 <= j < |vc| && vc[j].key == y;
    assert forall k :: 0 <= k < |top| ==> top[k] == vc[k].key && top[k] in top;
    assert j >= |head|;
    assert vc[i].count >= vc[j].count;
  }

  lemma TopOfAll(names: seq<string>, limit: int)
    requires limit >= |Keys(ValueCounts(names))|
    ensures forall y :: y in names ==> y in TopOf(names, limit)
  {
    var vc := ValueCounts(names);
    var top := TopOf(names, limit);
    ValueCountsPermutes(names);
    KeysCard(vc);
    assert PyPrefix(vc, limit) == vc;
    forall y | y in names ensures y in top {
      ValueCountsCovers(names, y);
      var j :| 0 <= j < |vc| && vc[j].key == y;
      assert top[j] == y;
    }
  }

  /** The top authors are distinct cleaned authors of the chat, at most `limit` of them
      (all but `-limit` of them for a negative limit), nobody left out has more
      messages than anybody kept, and a limit of at least the number of authors keeps
      every author. */
  lemma TopAuthorsProps(u: Unicode, df: seq<Message>, limit: int)
    ensures var top := TopAuthors(u, df, limit);
      && (limit >= 0 ==> |top| <= limit)
      && (forall i, j :: 0 <= i < j < |top| ==> top[i] != top[j])
      && (forall x :: x in top ==> x in CleanAuthors(u, df))
      && (forall x, y :: x in top && y in CleanAuthors(u, df) && y !in top ==>
            multiset(CleanAuthors(u, df))[y] <= multiset(CleanAuthors(u, df))[x])
      && (limit >= |Keys(ValueCounts(CleanAuthors(u, df)))| ==>
            forall y :: y in CleanAuthors(u, df) ==> y in top)
  {
    var names := CleanAuthors(u, df);
    assert TopAuthors(u, df, limit) == TopOf(names, limit);
    TopOfDistinct(names, limit);
    TopOfMembers(names, limit);
    forall x, y | x in TopOf(names, limit) && y in names && y !in TopOf(names, limit)
      ensures multiset(names)[y] <= multiset(names)[x]
    {
      TopOfDominates(names, limit, x, y);
    }
    if limit >= |Keys(ValueCounts(names))| {
      TopOfAll(names, limit);
    }
  }

  // ---------------------------------------------------------------- per-author figures

  /** One row of a `groupby('CleanAuthor')` aggregate. */
  datatype Stat = Stat(name: string, value: real)

  function StatValue(s: Stat): real
  {
    s.value
  }

  function NegStatValue(s: Stat): real
  {
    -s.value
  }

  /** `sort_values()` on a per-author figure: ascending. */
  function Ascending(stats: seq<Stat>): seq<Stat>
  {
    SortBy(stats, StatValue)
  }

  /** `sort_values(ascending=False)`: descending. */
  function Descending(stats: seq<Stat>): seq<Stat>
  {
    SortBy(stats, NegStatValue)
  }

  lemma AscendingProps(stats: seq<Stat>)
    ensures forall i, j :: 0 <= i < j < |Ascending(stats)| ==> Ascending(stats)[i].value <= Ascending(stats)[j].value
    ensures multiset(Ascending(stats)) == multiset(stats)
  {
    SortBySorted(stats, StatValue);
    SortByPermutation(stats, StatValue);
    forall i, j | 0 <= i < j < |Ascending(stats)| ensures Ascending(stats)[i].value <= Ascending(stats)[j].value {
      assert StatValue(Ascending(stats)[i]) <= StatValue(Ascending(stats)[j]);
    }
  }

  lemma DescendingProps(stats: seq<Stat>)
    ensures forall i, j :: 0 <= i < j < |Descending(stats)| ==> Descending(stats)[i].value >= Descending(stats)[j].value
    ensures multiset(Descending(stats)) == multiset(stats)
  {
    SortBySorted(stats, NegStatValue);
    SortByPermutation(stats, NegStatValue);
    forall i, j | 0 <= i < j < |Descending(stats)| ensures Descending(stats)[i].value >= Descending(stats)[j].value {
      assert NegStatValue(Descending(stats)[i]) <= NegStatValue(Descending(stats)[j]);
    }
  }

  /** The rows written by `name` (cleaned author). */
  function RowsOf(u: Unicode, df: seq<Message>, name: string): seq<Message>
  {
    if df == [] then []
    else RowsOf(u, df[..|df| - 1], name) + (if CleanAuthor(u, df[|df| - 1]) == name then [df[|df| - 1]] else [])
  }

  lemma {:induction false} RowsOfCount(u: Unicode, df: seq<Message>, name: string)
    ensures |RowsOf(u, df, name)| == multiset(CleanAuthors(u, df))[name]
    ensures forall msg :: msg in RowsOf(u, df, name) ==> msg in df && CleanAuthor(u, msg) == name
  {
    if df != [] {
      var init := df[..|df| - 1];
      RowsOfCount(u, init, name);
      assert CleanAuthors(u, df) == CleanAuthors(u, init) + [CleanAuthor(u, df[|df| - 1])];
    }
  }

  /** Sum of a per-row figure. */
  function SumOf(rows: seq<Message>, f: Message -> real): real
  {
    if rows == [] then 0.0 else SumOf(rows[..|rows| - 1], f) + f(rows[|rows| - 1])
  }

  /** Mean of a per-row figure; `None` (NaN) for no rows. */
  function MeanOf(rows: seq<Message>, f: Message -> real): Option<real>
  {
    if rows == [] then None else Some(SumOf(rows, f) / |rows| as real)
  }

  /** A sum of `n` figures in `[lo, hi]` lies in `[n * lo, n * hi]`. */
  lemma {:induction false} SumOfBounds(rows: seq<Message>, f: Message -> real, lo: real, hi: real)
    requires forall m :: lo <= f(m) <= hi
    ensures |rows| as real * lo <= SumOf(rows, f) <= |rows| as real * hi
  {
    if rows != [] {
      SumOfBounds(rows[..|rows| - 1], f, lo, hi);
      assert f(rows[|rows| - 1]) >= lo;
    }
  }

  /** A mean of figures in `[lo, hi]` lies in `[lo, hi]`. */
  lemma MeanOfBounds(rows: seq<Message>, f: Message -> real, lo: real, hi: real)
    requires forall m :: lo <= f(m) <= hi
    ensures MeanOf(rows, f).Some? ==> lo <= MeanOf(rows, f).value <= hi
  {
    if rows != [] {
      SumOfBounds(rows, f, lo, hi);
      var n, s := |rows| as real, SumOf(rows, f);
      var q := s / n;
      assert MeanOf(rows, f) == Some(q);
      assert n * lo <= s <= n * hi;
      assert q * n == s;
      assert (q - lo) * n >= 0.0 && (hi - q) * n >= 0.0;
    }
  }

  /** `df[df['CleanAuthor'].isin(names)].groupby('CleanAuthor')[f].mean()`, taking the
      groups in the order of `names`: one figure per name that has rows. */
  function MeansFor(u: Unicode, df: seq<Message>, names: seq<string>, f: Message -> real): seq<Stat>
  {
    if names == [] then []
    else
      var rows := RowsOf(u, df, names[0]);
      (if rows == [] then [] else [Stat(names[0], SumOf(rows, f) / |rows| as real)])
      + MeansFor(u, df, names[1..], f)
  }

  /** The same grouping with the sum instead of the mean. */
  function SumsFor(u: Unicode, df: seq<Message>, names: seq<string>, f: Message -> real): seq<Stat>
  {
    if names == [] then []
    else
      var rows := RowsOf(u, df, names[0]);
      (if rows == [] then [] else [Stat(names[0], SumOf(rows, f))])
      + SumsFor(u, df, names[1..], f)
  }

  /** Each group figure belongs to a listed name that has rows and is that name's mean;
      every listed name with rows has one. */
  lemma {:induction false} MeansForProps(u: Unicode, df: seq<Message>, names: seq<string>, f: Message -> real)
    ensures forall s :: s in MeansFor(u, df, names, f) ==>
      s.name in names && MeanOf(RowsOf(u, df, s.name), f) == Some(s.value)
    ensures forall x :: x in names && RowsOf(u, df, x) != [] ==> exists s :: s in MeansFor(u, df, names, f) && s.name == x
    ensures |MeansFor(u, df, names, f)| <= |names|
  {
    if names != [] {
      MeansForProps(u, df, names[1..], f);
      var rows := RowsOf(u, df, names[0]);
      if rows != [] {
        assert MeansFor(u, df, names, f)[0] == Stat(names[0], SumOf(rows, f) / |rows| as real);
      }
      forall x | x in names && RowsOf(u, df, x) != []
        ensures exists s :: s in MeansFor(u, df, names, f) && s.name == x
      {
        if x == names[0] {
          assert MeansFor(u, df, names, f)[0].name == x;
        } else {
          assert x in names[1..];
        }
      }
    }
  }

  lemma {:induction false} SumsForProps(u: Unicode, df: seq<Message>, names: seq<string>, f: Message -> real)
    ensures forall s :: s in SumsFor(u, df, names, f) ==>
      s.name in names && RowsOf(u, df, s.name) != [] && SumOf(RowsOf(u, df, s.name), f) == s.value
    ensures forall x :: x in names && RowsOf(u, df, x) != [] ==> exists s :: s in SumsFor(u, df, names, f) && s.name == x
    ensures |SumsFor(u, df, names, f)| <= |names|
  {
    if names != [] {
      SumsForProps(u, df, names[1..], f);
      var rows := RowsOf(u, df, names[0]);
      if rows != [] {
        assert SumsFor(u, df, names, f)[0] == Stat(names[0], SumOf(rows, f));
      }
      forall x | x in names && RowsOf(u, df, x) != []
        ensures exists s :: s in SumsFor(u, df, names, f) && s.name == x
      {
        if x == names[0] {
          assert SumsFor(u, df, names, f)[0].name == x;
        } else {
          assert x in names[1..];
        }
      }
    }
  }

  /** Every top author has at least one row. */
  lemma TopAuthorsHaveRows(u: Unicode, df: seq<Message>, limit: int, x: string)
    requires x in TopAuthors(u, df, limit)
    ensures RowsOf(u, df, x) != []
  {
    TopAuthorsProps(u, df, limit);
    RowsOfCount(u, df, x);
  }
}
