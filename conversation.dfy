/** `analyze_response_time` and `analyze_conversation_roles`: how fast authors answer,
    and who breaks and who leaves a silence. Both work on the messages in time order. */
module Conversation {
  import opened Wrappers
  import opened Seqs
  import opened Sorting
  import opened Tally
  import opened TextUtils
  import opened Chat
  import opened Frame

  // ---------------------------------------------------------------- analyze_response_time

  /** `groupby('CleanAuthor')['Time_Diff'].mean()` over `rs`, one figure per name of
      `names` that has a reply, in the order of `names`. */
  function ReplyMeans(rs: seq<Reply>, names: seq<string>): seq<Stat>
  {
    if names == [] then [] else MeanPart(rs, names[0]) + ReplyMeans(rs, names[1..])
  }

  /** The mean reply time of `name`, if it replied. */
  function MeanPart(rs: seq<Reply>, name: string): seq<Stat>
  {
    var own := RepliesBy(rs, name);
    if own == [] then [] else [Stat(name, GapSum(own) / |own| as real)]
  }

  /** Each entry is a listed name with its mean reply time; every listed name that
      replied has an entry; there is none exactly when no listed name replied. */
  lemma ReplyMeansProps(rs: seq<Reply>, names: seq<string>)
    ensures forall s :: s in ReplyMeans(rs, names) ==>
      s.name in names && MeanGap(RepliesBy(rs, s.name)) == Some(s.value)
    ensures forall x :: x in names && RepliesBy(rs, x) != [] ==>
      exists s :: s in ReplyMeans(rs, names) && s.name == x
    ensures ReplyMeans(rs, names) == [] <==> forall x :: x in names ==> RepliesBy(rs, x) == []
  {
    ReplyMeansSound(rs, names);
    ReplyMeansComplete(rs, names);
  }

  lemma {:induction false} ReplyMeansSound(rs: seq<Reply>, names: seq<string>)
    ensures forall s :: s in ReplyMeans(rs, names) ==>
      s.name in names && MeanGap(RepliesBy(rs, s.name)) == Some(s.value)
    decreases |names|
  {
    if names != [] {
      ReplyMeansSound(rs, names[1..]);
      var head := MeanPart(rs, names[0]);
      var tail := ReplyMeans(rs, names[1..]);
      assert ReplyMeans(rs, names) == head + tail;
      forall s: Stat | s in head + tail ensures s.name in names && MeanGap(RepliesBy(rs, s.name)) == Some(s.value) {
        if s in tail {
          assert s.name in names[1..];
        } else {
          assert s in head;
        }
      }
    }
  }

  lemma {:induction false} ReplyMeansComplete(rs: seq<Reply>, names: seq<string>)
    ensures forall x :: x in names && RepliesBy(rs, x) != [] ==>
      exists s :: s in ReplyMeans(rs, names) && s.name == x
    ensures ReplyMeans(rs, names) == [] <==> forall x :: x in names ==> RepliesBy(rs, x) == []
    decreases |names|
  {
    if names != [] {
      ReplyMeansComplete(rs, names[1..]);
      var head := MeanPart(rs, names[0]);
      var tail := ReplyMeans(rs, names[1..]);
      var means := ReplyMeans(rs, names);
      assert means == head + tail;
      forall x | x in names && RepliesBy(rs, x) != [] ensures exists s :: s in means && s.name == x {
        if x == names[0] {
          assert head[0] in means;
        } else {
          assert x in names[1..];
          var s :| s in tail && s.name == x;
          assert s in means;
        }
      }
      if forall x :: x in names ==> RepliesBy(rs, x) == [] {
        assert forall x :: x in names[1..] ==> x in names;
      } else {
        var x :| x in names && RepliesBy(rs, x) != [];
        var s :| s in means && s.name == x;
      }
    }
  }

  datatype ResponseTime = ResponseTime(data: seq<Stat>, fastestResponder: Option<string>, averageResponseTime: Option<real>)

  /** `analyze_response_time(limit)`: the mean reply time in minutes of each of the
      `limit` most active authors, fastest first, and the mean over their replies. With
      no reply at all the result is empty. */
  function AnalyzeResponseTime(u: Unicode, df: seq<Message>, limit: int): ResponseTime
  {
    var rs := ChatReplies(u, df);
    if rs == [] then ResponseTime([], None, None)
    else
      var top := TopAuthors(u, df, limit);
      var kept := RepliesAmong(rs, top);
      var data := Ascending(ReplyMeans(kept, top));
      ResponseTime(data, if data == [] then None else Some(data[0].name), MeanGap(kept))
  }

  /** Without replies there is no data, no fastest responder and no average; and when no
      top author has replied the data is empty and the average is NaN. */
  lemma ResponseTimeEmpty(u: Unicode, df: seq<Message>, limit: int)
    ensures ChatReplies(u, df) == [] ==>
      AnalyzeResponseTime(u, df, limit) == ResponseTime([], None, None)
    ensures (forall r :: r in ChatReplies(u, df) ==> r.clean !in TopAuthors(u, df, limit)) ==>
      AnalyzeResponseTime(u, df, limit).data == [] && AnalyzeResponseTime(u, df, limit).averageResponseTime.None?
  {
    var rs := ChatReplies(u, df);
    var top := TopAuthors(u, df, limit);
    RepliesAmongProps(rs, top, "");
    if rs != [] && forall r :: r in rs ==> r.clean !in top {
      ReplyMeansProps([], top);
      assert forall x :: RepliesBy([], x) == [];
    }
  }

  /** Each entry is a top author with that author's mean reply time over all of the
      chat's replies, and every top author who replied has an entry. */
  lemma ResponseTimeEntries(u: Unicode, df: seq<Message>, limit: int)
    requires ChatReplies(u, df) != []
    ensures var r := AnalyzeResponseTime(u, df, limit);
      var rs := ChatReplies(u, df);
      var top := TopAuthors(u, df, limit);
      && (forall s :: s in r.data ==> s.name in top && MeanGap(RepliesBy(rs, s.name)) == Some(s.value))
      && (forall x :: x in top && RepliesBy(rs, x) != [] ==> exists s :: s in r.data && s.name == x)
  {
    var r := AnalyzeResponseTime(u, df, limit);
    var rs := ChatReplies(u, df);
    var top := TopAuthors(u, df, limit);
    var kept := RepliesAmong(rs, top);
    var means := ReplyMeans(kept, top);
    ReplyMeansProps(kept, top);
    AscendingProps(means);
    assert r.data == Ascending(means);
    forall s | s in r.data ensures s.name in top && MeanGap(RepliesBy(rs, s.name)) == Some(s.value) {
      assert s in multiset(r.data);
      assert s in means;
      RepliesAmongProps(rs, top, s.name);
    }
    forall x | x in top && RepliesBy(rs, x) != [] ensures exists s :: s in r.data && s.name == x {
      RepliesAmongProps(rs, top, x);
      var s :| s in means && s.name == x;
      assert s in multiset(means);
      assert s in multiset(r.data);
      assert s in r.data;
    }
  }

  /** Means ascend, the fastest responder is the first entry and has the smallest mean,
      and the average is taken over the replies of the top authors only. */
  lemma ResponseTimeOrder(u: Unicode, df: seq<Message>, limit: int)
    requires ChatReplies(u, df) != []
    ensures var r := AnalyzeResponseTime(u, df, limit);
      && (forall i, j :: 0 <= i < j < |r.data| ==> r.data[i].value <= r.data[j].value)
      && (r.fastestResponder.None? <==> r.data == [])
      && (r.fastestResponder.Some? ==> (exists s :: (s in r.data && s.name == r.fastestResponder.value
            && forall t :: t in r.data ==> s.value <= t.value)))
      && r.averageResponseTime == MeanGap(RepliesAmong(ChatReplies(u, df), TopAuthors(u, df, limit)))
  {
    var r := AnalyzeResponseTime(u, df, limit);
    var top := TopAuthors(u, df, limit);
    var means := ReplyMeans(RepliesAmong(ChatReplies(u, df), top), top);
    AscendingProps(means);
    assert r.data == Ascending(means);
    if r.data != [] {
      forall t | t in r.data ensures r.data[0].value <= t.value {
        var j :| 0 <= j < |r.data| && r.data[j] == t;
      }
      assert r.data[0] in r.data;
    }
  }

  // ---------------------------------------------------------------- analyze_conversation_roles

  /** Three hours of silence. */
  const Silence := 3 * SecondsPerHour

  /** Message `i` of the time-ordered rows breaks a silence of more than 3 hours; the
      first message has no gap before it and never does. */
  predicate IsStarter(s: seq<Message>, i: nat)
    requires i < |s|
  {
    i > 0 && s[i].stamp - s[i - 1].stamp > Silence
  }

  /** Message `i` is followed by more than 3 hours of silence; the last message has no
      gap after it and never is. */
  predicate IsEnder(s: seq<Message>, i: nat)
    requires i < |s|
  {
    i + 1 < |s| && s[i + 1].stamp - s[i].stamp > Silence
  }

  /** The cleaned authors of the starters among `s[..n]`, in order. */
  function StartersUpTo(u: Unicode, s: seq<Message>, n: nat): seq<string>
    requires n <= |s|
  {
    if n == 0 then []
    else StartersUpTo(u, s, n - 1) + (if IsStarter(s, n - 1) then [CleanAuthor(u, s[n - 1])] else [])
  }

  function EndersUpTo(u: Unicode, s: seq<Message>, n: nat): seq<string>
    requires n <= |s|
  {
    if n == 0 then []
    else EndersUpTo(u, s, n - 1) + (if IsEnder(s, n - 1) then [CleanAuthor(u, s[n - 1])] else [])
  }

  datatype Roles = Roles(starters: seq<Entry<string>>, enders: seq<Entry<string>>,
                         topStarter: Option<string>, topEnder: Option<string>)

  function First(t: seq<Entry<string>>): Option<string>
  {
    if t == [] then None else Some(t[0].key)
  }

  /** `analyze_conversation_roles`: the ten most frequent starters and enders. */
  function AnalyzeConversationRoles(u: Unicode, df: seq<Message>): Roles
  {
    var s := ByTime(df);
    var starters := PyPrefix(ValueCounts(StartersUpTo(u, s, |s|)), 10);
    var enders := PyPrefix(ValueCounts(EndersUpTo(u, s, |s|)), 10);
    Roles(starters, enders, First(starters), First(enders))
  }

  /** Every silence has one starter after it and one ender before it: a message ends a
      conversation exactly when the next one starts one, the first message never
      starts one and the last never ends one, so up to any point the enders before it
      match the starters one message further on. */
  lemma {:induction false} EndersMatchStarters(u: Unicode, s: seq<Message>, n: nat)
    requires n + 1 <= |s|
    ensures forall i :: 0 <= i && i + 1 < |s| ==> (IsEnder(s, i) <==> IsStarter(s, i + 1))
    ensures !IsStarter(s, 0) && !IsEnder(s, |s| - 1)
    ensures |EndersUpTo(u, s, n)| == |StartersUpTo(u, s, n + 1)|
  {
    if n > 0 {
      EndersMatchStarters(u, s, n - 1);
    }
  }

  /** There are as many starters as enders in the whole chat. */
  lemma StartersBalanceEnders(u: Unicode, s: seq<Message>)
    ensures |StartersUpTo(u, s, |s|)| == |EndersUpTo(u, s, |s|)|
  {
    if |s| > 0 {
      EndersMatchStarters(u, s, |s| - 1);
    }
  }

  /** Each list has at most ten distinct names with their numbers of starts (ends),
      largest first, and has its top name first; no top starter exactly when no message
      breaks a silence, and likewise for enders; starters and enders are equally many. */
  lemma RolesProps(u: Unicode, df: seq<Message>)
    ensures var r := AnalyzeConversationRoles(u, df);
      var s := ByTime(df);
      var st := StartersUpTo(u, s, |s|);
      var en := EndersUpTo(u, s, |s|);
      && |r.starters| <= 10 && |r.enders| <= 10
      && (forall i :: 0 <= i < |r.starters| ==> r.starters[i].count == multiset(st)[r.starters[i].key] >= 1)
      && (forall i :: 0 <= i < |r.enders| ==> r.enders[i].count == multiset(en)[r.enders[i].key] >= 1)
      && (forall i, j :: 0 <= i < j < |r.starters| ==> r.starters[i].count >= r.starters[j].count)
      && (forall i, j :: 0 <= i < j < |r.enders| ==> r.enders[i].count >= r.enders[j].count)
      && (r.topStarter.None? <==> st == [])
      && (r.topEnder.None? <==> en == [])
      && r.topStarter == First(r.starters) && r.topEnder == First(r.enders)
      && TopSelection(r.starters, (set x | x in st), x => multiset(st)[x], 10)
      && TopSelection(r.enders, (set x | x in en), x => multiset(en)[x], 10)
      && |st| == |en|
  {
    var s := ByTime(df);
    TopCounts(StartersUpTo(u, s, |s|));
    TopCounts(EndersUpTo(u, s, |s|));
    StartersBalanceEnders(u, s);
  }

  /** The ten largest counts of a list of names: distinct names with their counts,
      largest first, and a first name exactly when the list is not empty. */
  lemma TopCounts(xs: seq<string>)
    ensures var t := PyPrefix(ValueCounts(xs), 10);
      && |t| <= 10
      && (forall i :: 0 <= i < |t| ==> t[i].count == multiset(xs)[t[i].key] >= 1)
      && (forall i, j :: 0 <= i < j < |t| ==> t[i].count >= t[j].count)
      && (First(t).None? <==> xs == [])
      && TopSelection(t, (set x | x in xs), x => multiset(xs)[x], 10)
  {
    ValueCountsHead(xs, 10);
  }
}
