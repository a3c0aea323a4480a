/** `get_summary`, `analyze_volume` and `get_leaderboard`: the chat's overall figures and
    the per-author message counts. */
module Overview {
  import opened Wrappers
  import opened Seqs
  import opened Tally
  import opened TextUtils
  import opened Chat
  import opened Frame
  import opened Activity

  // ---------------------------------------------------------------- get_summary

  function MinStamp(df: seq<Message>): (t: Stamp)
    requires |df| > 0
    ensures forall i :: 0 <= i < |df| ==> t <= df[i].stamp
    ensures exists i :: 0 <= i < |df| && t == df[i].stamp
  {
    if |df| == 1 then df[0].stamp
    else
      var t := MinStamp(df[..|df| - 1]);
      assert forall i :: 0 <= i < |df| - 1 ==> df[..|df| - 1][i] == df[i];
      if df[|df| - 1].stamp < t then df[|df| - 1].stamp else t
  }

  function MaxStamp(df: seq<Message>): (t: Stamp)
    requires |df| > 0
    ensures forall i :: 0 <= i < |df| ==> df[i].stamp <= t
    ensures exists i :: 0 <= i < |df| && t == df[i].stamp
  {
    if |df| == 1 then df[0].stamp
    else
      var t := MaxStamp(df[..|df| - 1]);
      assert forall i :: 0 <= i < |df| - 1 ==> df[..|df| - 1][i] == df[i];
      if df[|df| - 1].stamp > t then df[|df| - 1].stamp else t
  }

  /** `(end_date - start_date).days or 1`: whole days elapsed, and 1 instead of 0. */
  function TotalDays(start: Stamp, end: Stamp): nat
    requires start <= end
  {
    if (end - start) / SecondsPerDay == 0 then 1 else (end - start) / SecondsPerDay
  }

  /** The `Day` column: the English day name. */
  function DayNamesOf(df: seq<Message>): (r: seq<string>)
    ensures |r| == |df|
    ensures forall i :: 0 <= i < |df| ==> r[i] == DayNames[Weekday(df[i].stamp)]
  {
    seq(|df|, i requires 0 <= i < |df| => DayNames[Weekday(df[i].stamp)])
  }

  datatype Summary = Summary(
    startDate: Stamp,
    endDate: Stamp,
    totalMessages: nat,
    totalDays: nat,
    messagesPerDay: real,
    uniqueParticipants: nat,
    topName: string,
    topMessages: nat,
    topPercentage: real,
    peakHour: nat,
    busiestDay: string)

  /** `get_summary`; `None` for an empty chat, where `value_counts().index[0]` raises
      `IndexError`. The top contributor is the most frequent raw author, and the peak
      hour and busiest day are the first entries of `value_counts()` on the `Hour` and
      `Day` columns. */
  function GetSummary(u: Unicode, df: seq<Message>): (r: Option<Summary>)
    ensures r.None? <==> df == []
  {
    if df == [] then None
    else
      var start := MinStamp(df);
      var end := MaxStamp(df);
      var days := TotalDays(start, end);
      var top := ValueCounts(Authors(df))[0];
      Some(Summary(
        start, end, |df|, days, Quotient(|df| as real, days),
        |set a | a in Authors(df)|,
        CleanName(u, top.key, DisplayWidth), top.count, Percent(top.count, |df|),
        ValueCounts(Hours(df))[0].key,
        ValueCounts(DayNamesOf(df))[0].key))
  }

  /** The summary spans the chat: every message lies between the first and last
      timestamps, which are both message timestamps, and the day count is the whole
      days between them, or 1. */
  lemma SummarySpan(u: Unicode, df: seq<Message>)
    requires df != []
    ensures var s := GetSummary(u, df).value;
      && (forall i :: 0 <= i < |df| ==> s.startDate <= df[i].stamp <= s.endDate)
      && (exists i :: 0 <= i < |df| && df[i].stamp == s.startDate)
      && (exists i :: 0 <= i < |df| && df[i].stamp == s.endDate)
      && s.totalMessages == |df|
      && s.totalDays >= 1
      && (s.endDate - s.startDate < SecondsPerDay ==> s.totalDays == 1)
      && (s.endDate - s.startDate >= SecondsPerDay ==> s.totalDays == (s.endDate - s.startDate) / SecondsPerDay)
      && s.uniqueParticipants == |set a | a in Authors(df)|
  {
  }

  /** The top contributor is a most frequent raw author, shown cleaned, and its share is
      taken of all messages. */
  lemma SummaryTop(u: Unicode, df: seq<Message>)
    requires df != []
    ensures var s := GetSummary(u, df).value;
      && (exists a :: a in Authors(df) && s.topName == CleanName(u, a, DisplayWidth)
            && s.topMessages == multiset(Authors(df))[a])
      && (forall b :: multiset(Authors(df))[b] <= s.topMessages)
      && s.topPercentage == Percent(s.topMessages, |df|)
  {
    ValueCountsTop(Authors(df));
  }

  /** The peak hour and the busiest day are most frequent values of their columns. */
  lemma SummaryPeaks(u: Unicode, df: seq<Message>)
    requires df != []
    ensures var s := GetSummary(u, df).value;
      && s.peakHour < 24 && s.peakHour in Hours(df)
      && (forall h :: multiset(Hours(df))[h] <= multiset(Hours(df))[s.peakHour])
      && s.busiestDay in DayNames
      && (forall d :: multiset(DayNamesOf(df))[d] <= multiset(DayNamesOf(df))[s.busiestDay])
  {
    var s := GetSummary(u, df).value;
    ValueCountsTop(Hours(df));
    ValueCountsTop(DayNamesOf(df));
    var i :| 0 <= i < |df| && DayNamesOf(df)[i] == s.busiestDay;
    assert s.busiestDay == DayNames[Weekday(df[i].stamp)];
  }

  // ---------------------------------------------------------------- analyze_volume

  datatype Volume = Volume(data: seq<Entry<string>>, totalMessages: nat, topContributor: Option<string>)

  /** `analyze_volume(limit)`: the `limit` most active cleaned authors with their
      message counts. */
  function AnalyzeVolume(u: Unicode, df: seq<Message>, limit: int): Volume
  {
    var v := TopCounts(u, df, limit);
    Volume(v, |df|, if v == [] then None else Some(v[0].key))
  }

  /** At most `limit` distinct authors, each with its own message count, largest first;
      the total is every message; no top contributor exactly when the list is empty,
      which for a positive limit is exactly the empty chat; the top contributor has the
      most messages of all. */
  lemma VolumeProps(u: Unicode, df: seq<Message>, limit: int)
    ensures var v := AnalyzeVolume(u, df, limit);
      && (limit >= 0 ==> |v.data| <= limit)
      && (forall i, j :: 0 <= i < j < |v.data| ==> v.data[i].key != v.data[j].key)
      && (forall i :: 0 <= i < |v.data| ==> v.data[i].count == multiset(CleanAuthors(u, df))[v.data[i].key] >= 1)
      && (forall i, j :: 0 <= i < j < |v.data| ==> v.data[i].count >= v.data[j].count)
      && v.totalMessages == |df|
      && (v.topContributor.None? <==> v.data == [])
      && (limit >= 1 ==> (v.topContributor.None? <==> df == []))
      && (v.topContributor.Some? ==>
            forall x :: multiset(CleanAuthors(u, df))[x] <= multiset(CleanAuthors(u, df))[v.topContributor.value])
      && TopSelection(v.data, (set a | a in CleanAuthors(u, df)), a => multiset(CleanAuthors(u, df))[a], limit)
      && (limit >= |set a | a in CleanAuthors(u, df)| ==> Keys(v.data) == set a | a in CleanAuthors(u, df))
  {
    ValueCountsHead(CleanAuthors(u, df), limit);
  }

  // ---------------------------------------------------------------- get_leaderboard

  datatype Place = Place(rank: nat, name: string, messages: nat, percentage: real)

  /** `get_leaderboard(limit)`: the `limit` most frequent raw authors, ranked from 1,
      with their cleaned names, message counts and share of all messages. An empty chat
      has no entries to rank. */
  function GetLeaderboard(u: Unicode, df: seq<Message>, limit: int): seq<Place>
  {
    if df == [] then []
    else
      var top := PyPrefix(ValueCounts(Authors(df)), limit);
      seq(|top|, i requires 0 <= i < |top| =>
        Place(i + 1, CleanName(u, top[i].key, DisplayWidth), top[i].count,
              Percent(top[i].count, |df|)))
  }

  /** Ranks run 1, 2, ... with at most `limit` places; each place is a distinct raw
      author's cleaned name with that author's message count, largest first; each
      percentage is taken of all messages, so the percentages add up to at most 100. */
  lemma LeaderboardProps(u: Unicode, df: seq<Message>, limit: int)
    ensures var board := GetLeaderboard(u, df, limit);
      && (limit >= 0 ==> |board| <= limit)
      && (forall i :: 0 <= i < |board| ==> board[i].rank == i + 1)
      && (forall i :: 0 <= i < |board| ==>
            exists a :: (a in Authors(df) && board[i].name == CleanName(u, a, DisplayWidth)
              && board[i].messages == multiset(Authors(df))[a]))
      && (forall i, j :: 0 <= i < j < |board| ==> board[i].messages >= board[j].messages)
      && (forall i :: 0 <= i < |board| ==> board[i].percentage == Percent(board[i].messages, |df|))
      && (limit >= 1 ==> (board == [] <==> df == []))
  {
    var board := GetLeaderboard(u, df, limit);
    if df != [] {
      var authors := Authors(df);
      var vc := ValueCounts(authors);
      var top := PyPrefix(vc, limit);
      ValueCountsProps(authors);
      assert top == vc[..|top|];
      forall i | 0 <= i < |board|
        ensures exists a :: (a in authors && board[i].name == CleanName(u, a, DisplayWidth)
          && board[i].messages == multiset(authors)[a])
      {
        ValueCountsEntry(authors, i);
      }
      ValueCountsFirstIsMax(authors, authors[0]);
    }
  }

  /** The board ranks the `limit` most active raw authors: it shows, place by place,
      the cleaned names and counts of a selection of distinct raw authors by message
      count, so nobody left off the board has more messages than anybody on it. */
  lemma LeaderboardTop(u: Unicode, df: seq<Message>, limit: int)
    ensures var board := GetLeaderboard(u, df, limit);
      exists t: seq<Entry<string>> ::
        && TopSelection(t, (set a | a in Authors(df)), a => multiset(Authors(df))[a], limit)
        && |t| == |board|
        && forall i :: 0 <= i < |t| ==>
             board[i].name == CleanName(u, t[i].key, DisplayWidth) && board[i].messages == t[i].count
  {
    var t := PyPrefix(ValueCounts(Authors(df)), limit);
    ValueCountsSelect(Authors(df), limit);
    assert |t| == |GetLeaderboard(u, df, limit)|;
  }
}
