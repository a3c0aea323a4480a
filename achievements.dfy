/** `calculate_achievements`: six badges, each for the author who leads one metric,
    collected per cleaned name in the order the names are first awarded. */
module Achievements {
  import opened Wrappers
  import opened Seqs
  import opened Tally
  import opened TextUtils
  import opened Chat
  import opened Frame
  import opened Conversation
  import opened Content

  datatype Badge = NightOwl | EarlyBird | Comedian | Lightning | Chatterbox | Professor

  /** One name with its badges, in the order they were awarded. */
  datatype Award = Award(name: string, badges: seq<Badge>)

  /** What the source raises: `IndexError` from `value_counts().index[0]` on an empty
      chat, `NameError` from the closing message naming a `lightning` that was never
      assigned. */
  datatype AchievementError = IndexError | NameError

  // ---------------------------------------------------------------- the awards dictionary

  /** `achievements[x] = achievements.get(x, []) + [b]` on a dictionary kept in
      insertion order. */
  function Grant(awards: seq<Award>, x: string, b: Badge): seq<Award>
  {
    if awards == [] then [Award(x, [b])]
    else if awards[0].name == x then [Award(x, awards[0].badges + [b])] + awards[1..]
    else [awards[0]] + Grant(awards[1..], x, b)
  }

  /** Grants `b` to the winner, if there is one. */
  function GrantTo(awards: seq<Award>, winner: Option<string>, b: Badge): seq<Award>
  {
    if winner.None? then awards else Grant(awards, winner.value, b)
  }

  /** The badges of `x`, none when `x` has no entry. */
  function BadgesOf(awards: seq<Award>, x: string): seq<Badge>
  {
    if awards == [] then [] else if awards[0].name == x then awards[0].badges else BadgesOf(awards[1..], x)
  }

  /** The names of the dictionary, in insertion order. */
  function Names(awards: seq<Award>): seq<string>
  {
    if awards == [] then [] else [awards[0].name] + Names(awards[1..])
  }

  /** No name has two entries. */
  predicate DistinctNames(awards: seq<Award>)
  {
    awards == [] || (awards[0].name !in Names(awards[1..]) && DistinctNames(awards[1..]))
  }

  /** Granting appends the badge to the winner's list, adds the winner at the end when
      new, keeps the names distinct, and leaves everybody else's badges alone. */
  lemma GrantProps(awards: seq<Award>, x: string, b: Badge)
    requires DistinctNames(awards)
    ensures DistinctNames(Grant(awards, x, b))
    ensures forall y :: BadgesOf(Grant(awards, x, b), y) == BadgesOf(awards, y) + (if y == x then [b] else [])
    ensures Names(Grant(awards, x, b)) == if x in Names(awards) then Names(awards) else Names(awards) + [x]
  {
    GrantNames(awards, x, b);
    GrantDistinct(awards, x, b);
    forall y ensures BadgesOf(Grant(awards, x, b), y) == BadgesOf(awards, y) + (if y == x then [b] else []) {
      GrantBadges(awards, x, b, y);
    }
  }

  lemma {:induction false} GrantNames(awards: seq<Award>, x: string, b: Badge)
    ensures Names(Grant(awards, x, b)) == if x in Names(awards) then Names(awards) else Names(awards) + [x]
    decreases |awards|
  {
    if awards == [] {
      assert Names([Award(x, [b])]) == [x] + Names([]);
    } else {
      var rest := awards[1..];
      var g := Grant(awards, x, b);
      assert Names(awards) == [awards[0].name] + Names(rest);
      if awards[0].name == x {
        assert g[1..] == rest;
        assert Names(g) == [x] + Names(rest);
      } else {
        GrantNames(rest, x, b);
        assert g[1..] == Grant(rest, x, b);
        assert Names(g) == [awards[0].name] + Names(Grant(rest, x, b));
        if x !in Names(rest) {
          assert [awards[0].name] + (Names(rest) + [x]) == Names(awards) + [x];
        }
      }
    }
  }

  lemma {:induction false} GrantDistinct(awards: seq<Award>, x: string, b: Badge)
    requires DistinctNames(awards)
    ensures DistinctNames(Grant(awards, x, b))
    decreases |awards|
  {
    if awards != [] {
      var rest := awards[1..];
      var g := Grant(awards, x, b);
      if awards[0].name == x {
        assert g[1..] == rest;
      } else {
        GrantDistinct(rest, x, b);
        GrantNames(rest, x, b);
        assert g[1..] == Grant(rest, x, b);
        assert Names(awards) == [awards[0].name] + Names(rest);
      }
    }
  }

  lemma {:induction false} GrantBadges(awards: seq<Award>, x: string, b: Badge, y: string)
    requires DistinctNames(awards)
    ensures BadgesOf(Grant(awards, x, b), y) == BadgesOf(awards, y) + (if y == x then [b] else [])
    decreases |awards|
  {
    if awards != [] {
      var rest := awards[1..];
      var g := Grant(awards, x, b);
      if awards[0].name == x {
        assert g[1..] == rest;
        if y != x {
          assert BadgesOf(g, y) == BadgesOf(rest, y);
        }
      } else {
        GrantBadges(rest, x, b, y);
        assert g[1..] == Grant(rest, x, b);
      }
    }
  }

  lemma GrantToProps(awards: seq<Award>, winner: Option<string>, b: Badge)
    requires DistinctNames(awards)
    ensures DistinctNames(GrantTo(awards, winner, b))
    ensures forall y :: BadgesOf(GrantTo(awards, winner, b), y) == BadgesOf(awards, y) + Won(winner, y, b)
    ensures Names(GrantTo(awards, winner, b)) == AddWinner(Names(awards), winner)
  {
    if winner.Some? {
      GrantProps(awards, winner.value, b);
    }
  }

  /** The names with the winner added at the end when it is new. */
  function AddWinner(names: seq<string>, winner: Option<string>): seq<string>
  {
    if winner.Some? && winner.value !in names then names + [winner.value] else names
  }

  /** The winners of a sequence of metrics, each once, in the order of their first win. */
  function FirstWins(ws: seq<Option<string>>): seq<string>
  {
    if ws == [] then [] else AddWinner(FirstWins(ws[..|ws| - 1]), ws[|ws| - 1])
  }

  /** A name is listed exactly when it wins some metric. */
  lemma {:induction false} FirstWinsMembers(ws: seq<Option<string>>)
    ensures forall x :: x in FirstWins(ws) <==> Some(x) in ws
    decreases |ws|
  {
    if ws != [] {
      var init := ws[..|ws| - 1];
      FirstWinsMembers(init);
      assert ws == init + [ws[|ws| - 1]];
    }
  }

  /** `[b]` when `y` is the winner, else nothing. */
  function Won(winner: Option<string>, y: string, b: Badge): seq<Badge>
  {
    if winner == Some(y) then [b] else []
  }

  // ---------------------------------------------------------------- the six winners

  /** `Hour.between(0, 5)`: midnight to 5 o'clock, both ends included. */
  predicate AtNight(msg: Message)
  {
    Hour(msg.stamp) <= 5
  }

  /** `Hour.between(5, 7)`: 5 to 7 o'clock, both ends included. */
  predicate Early(msg: Message)
  {
    5 <= Hour(msg.stamp) <= 7
  }

  /** `rows['CleanAuthor'].value_counts().index[0]`, when there are rows. */
  function MostFrequent(u: Unicode, rows: seq<Message>): Option<string>
  {
    if rows == [] then None else Some(ValueCounts(CleanAuthors(u, rows))[0].key)
  }

  function NightOwlWinner(u: Unicode, df: seq<Message>): Option<string>
  {
    MostFrequent(u, Filter(df, AtNight))
  }

  function EarlyBirdWinner(u: Unicode, df: seq<Message>): Option<string>
  {
    MostFrequent(u, Filter(df, Early))
  }

  /** The `emoji_ratio` column: emoji per character, with one added to the length so an
      empty message does not divide by zero. */
  function EmojiRatio(u: Unicode, msg: Message): real
  {
    |ExtractEmojis(u, msg.body)| as real / (Length(msg) + 1) as real
  }

  /** The `emoji_ratio` column as a per-row figure. */
  function EmojiRatios(u: Unicode): Message -> real
  {
    m => EmojiRatio(u, m)
  }

  /** The ten most active cleaned authors. */
  function TopTen(u: Unicode, df: seq<Message>): seq<string>
  {
    TopAuthors(u, df, 10)
  }

  /** `idxmax` of a per-author figure: the first name with the largest value. */
  function Highest(stats: seq<Stat>): Option<string>
  {
    if stats == [] then None else Some(stats[FirstArgMax(stats, StatValue)].name)
  }

  /** `idxmin`: the first name with the smallest value. */
  function Lowest(stats: seq<Stat>): Option<string>
  {
    if stats == [] then None else Some(stats[FirstArgMin(stats, StatValue)].name)
  }

  function ComedianWinner(u: Unicode, df: seq<Message>): Option<string>
  {
    Highest(MeansFor(u, df, TopTen(u, df), EmojiRatios(u)))
  }

  /** The top authors' mean reply times, when there is any reply in the chat. */
  function LightningWinner(u: Unicode, df: seq<Message>): Option<string>
  {
    var rs := ChatReplies(u, df);
    if rs == [] then None else Lowest(TopReplyMeans(u, df, rs))
  }

  function ChatterboxWinner(u: Unicode, df: seq<Message>): Option<string>
  {
    MostFrequent(u, df)
  }

  function ProfessorWinner(u: Unicode, df: seq<Message>): Option<string>
  {
    Highest(MeansFor(u, df, TopTen(u, df), LengthKey))
  }

  // ---------------------------------------------------------------- calculate_achievements

  /** `calculate_achievements()`: the badges in the order the source awards them. */
  function CalculateAchievements(u: Unicode, df: seq<Message>): Result<seq<Award>, AchievementError>
  {
    if df == [] then Failure(IndexError)
    else if ChatReplies(u, df) != [] && LightningWinner(u, df).None? then Failure(NameError)
    else
      var a1 := GrantTo([], NightOwlWinner(u, df), NightOwl);
      var a2 := GrantTo(a1, EarlyBirdWinner(u, df), EarlyBird);
      var a3 := GrantTo(a2, ComedianWinner(u, df), Comedian);
      var a4 := GrantTo(a3, LightningWinner(u, df), Lightning);
      var a5 := GrantTo(a4, ChatterboxWinner(u, df), Chatterbox);
      Success(GrantTo(a5, ProfessorWinner(u, df), Professor))
  }

  /** The call fails exactly for an empty chat (`IndexError`), and for a chat with
      replies none of which comes from a top-ten author (`NameError`). */
  lemma AchievementsFailure(u: Unicode, df: seq<Message>)
    ensures CalculateAchievements(u, df) == Failure(IndexError) <==> df == []
    ensures CalculateAchievements(u, df) == Failure(NameError) <==>
      df != [] && ChatReplies(u, df) != [] &&
      forall r :: r in ChatReplies(u, df) ==> r.clean !in TopTen(u, df)
  {
    var rs := ChatReplies(u, df);
    var top := TopTen(u, df);
    if rs != [] {
      LightningExists(u, df);
      RepliesAmongEmpty(rs, top);
      if exists x :: x in top && RepliesBy(rs, x) != [] {
        var x :| x in top && RepliesBy(rs, x) != [];
        RepliesByAmong(rs, top, x);
        assert RepliesAmong(rs, top) != [];
      }
      if exists r :: r in rs && r.clean in top {
        var r :| r in rs && r.clean in top;
        RepliesByMember(rs, r);
      }
    }
  }

  lemma {:induction false} RepliesByMember(rs: seq<Reply>, r: Reply)
    requires r in rs
    ensures RepliesBy(rs, r.clean) != []
    decreases |rs|
  {
    if rs[|rs| - 1] != r {
      assert r in rs[..|rs| - 1] by {
        var i :| 0 <= i < |rs| && rs[i] == r;
        assert i < |rs| - 1;
        assert rs[..|rs| - 1][i] == r;
      }
      RepliesByMember(rs[..|rs| - 1], r);
    }
  }

  /** On success every name appears once, and each name's badges are exactly the
      metrics it wins, in the order night owl, early bird, comedian, lightning,
      chatterbox, professor. */
  lemma AchievementsBadges(u: Unicode, df: seq<Message>, x: string)
    requires CalculateAchievements(u, df).Success?
    ensures DistinctNames(CalculateAchievements(u, df).value)
    ensures BadgesOf(CalculateAchievements(u, df).value, x) ==
      Won(NightOwlWinner(u, df), x, NightOwl) + Won(EarlyBirdWinner(u, df), x, EarlyBird)
      + Won(ComedianWinner(u, df), x, Comedian) + Won(LightningWinner(u, df), x, Lightning)
      + Won(ChatterboxWinner(u, df), x, Chatterbox) + Won(ProfessorWinner(u, df), x, Professor)
  {
    assert CalculateAchievements(u, df).value == GrantSix(WinnerList(u, df));
    GrantSixBadges(WinnerList(u, df), x);
  }

  /** The winners of the six metrics, in the order the source awards them. */
  function WinnerList(u: Unicode, df: seq<Message>): seq<Option<string>>
  {
    [NightOwlWinner(u, df), EarlyBirdWinner(u, df), ComedianWinner(u, df),
     LightningWinner(u, df), ChatterboxWinner(u, df), ProfessorWinner(u, df)]
  }

  /** The six grants of `calculate_achievements` for the winners `ws`, in turn. */
  function GrantSix(ws: seq<Option<string>>): seq<Award>
    requires |ws| == 6
  {
    var a1 := GrantTo([], ws[0], NightOwl);
    var a2 := GrantTo(a1, ws[1], EarlyBird);
    var a3 := GrantTo(a2, ws[2], Comedian);
    var a4 := GrantTo(a3, ws[3], Lightning);
    var a5 := GrantTo(a4, ws[4], Chatterbox);
    GrantTo(a5, ws[5], Professor)
  }

  /** The six grants list the winners once each, in the order of their first win. */
  lemma GrantSixNames(ws: seq<Option<string>>)
    requires |ws| == 6
    ensures Names(GrantSix(ws)) == FirstWins(ws)
  {
    var a1 := GrantTo([], ws[0], NightOwl);
    var a2 := GrantTo(a1, ws[1], EarlyBird);
    var a3 := GrantTo(a2, ws[2], Comedian);
    var a4 := GrantTo(a3, ws[3], Lightning);
    var a5 := GrantTo(a4, ws[4], Chatterbox);
    GrantToProps([], ws[0], NightOwl);
    GrantToProps(a1, ws[1], EarlyBird);
    GrantToProps(a2, ws[2], Comedian);
    GrantToProps(a3, ws[3], Lightning);
    GrantToProps(a4, ws[4], Chatterbox);
    GrantToProps(a5, ws[5], Professor);
    FirstWinsStep(ws, 1);
    FirstWinsStep(ws, 2);
    FirstWinsStep(ws, 3);
    FirstWinsStep(ws, 4);
    FirstWinsStep(ws, 5);
    FirstWinsStep(ws, 6);
    assert ws[..0] == [] && ws[..6] == ws;
  }

  /** One more metric's winner, taken from the full list. */
  lemma FirstWinsStep(ws: seq<Option<string>>, n: nat)
    requires 0 < n <= |ws|
    ensures FirstWins(ws[..n]) == AddWinner(FirstWins(ws[..n - 1]), ws[n - 1])
  {
    assert ws[..n][..n - 1] == ws[..n - 1];
  }

  /** The six grants keep the names distinct and give each name the badges it won, in
      the order of the grants. */
  lemma GrantSixBadges(ws: seq<Option<string>>, x: string)
    requires |ws| == 6
    ensures DistinctNames(GrantSix(ws))
    ensures BadgesOf(GrantSix(ws), x) ==
      Won(ws[0], x, NightOwl) + Won(ws[1], x, EarlyBird) + Won(ws[2], x, Comedian)
      + Won(ws[3], x, Lightning) + Won(ws[4], x, Chatterbox) + Won(ws[5], x, Professor)
  {
    var a1 := GrantTo([], ws[0], NightOwl);
    var a2 := GrantTo(a1, ws[1], EarlyBird);
    var a3 := GrantTo(a2, ws[2], Comedian);
    var a4 := GrantTo(a3, ws[3], Lightning);
    var a5 := GrantTo(a4, ws[4], Chatterbox);
    GrantToProps([], ws[0], NightOwl);
    GrantToProps(a1, ws[1], EarlyBird);
    GrantToProps(a2, ws[2], Comedian);
    GrantToProps(a3, ws[3], Lightning);
    GrantToProps(a4, ws[4], Chatterbox);
    GrantToProps(a5, ws[5], Professor);
  }

  /** After the six grants a name is listed exactly when it holds a badge. */
  lemma GrantSixListed(ws: seq<Option<string>>, x: string)
    requires |ws| == 6
    ensures x in Names(GrantSix(ws)) <==> BadgesOf(GrantSix(ws), x) != []
  {
    GrantSixNames(ws);
    GrantSixBadges(ws, x);
    FirstWinsMembers(ws);
    WonSome(ws, x);
  }

  /** Some of the six metrics gives `x` a badge exactly when `x` wins one. */
  lemma WonSome(ws: seq<Option<string>>, x: string)
    requires |ws| == 6
    ensures Won(ws[0], x, NightOwl) + Won(ws[1], x, EarlyBird) + Won(ws[2], x, Comedian)
      + Won(ws[3], x, Lightning) + Won(ws[4], x, Chatterbox) + Won(ws[5], x, Professor) != []
      <==> Some(x) in ws
  {
    assert Some(x) in ws <==> (ws[0] == Some(x) || ws[1] == Some(x) || ws[2] == Some(x)
      || ws[3] == Some(x) || ws[4] == Some(x) || ws[5] == Some(x));
  }

  /** On success the dictionary lists the winners, each once, in the order they are
      first awarded. */
  lemma AchievementsNames(u: Unicode, df: seq<Message>)
    requires CalculateAchievements(u, df).Success?
    ensures Names(CalculateAchievements(u, df).value) == FirstWins(WinnerList(u, df))
  {
    assert CalculateAchievements(u, df).value == GrantSix(WinnerList(u, df));
    GrantSixNames(WinnerList(u, df));
  }

  /** On success a name is listed exactly when it holds a badge: nobody appears with
      an empty list. */
  lemma AchievementsListed(u: Unicode, df: seq<Message>, x: string)
    requires CalculateAchievements(u, df).Success?
    ensures x in Names(CalculateAchievements(u, df).value) <==>
      BadgesOf(CalculateAchievements(u, df).value, x) != []
  {
    assert CalculateAchievements(u, df).value == GrantSix(WinnerList(u, df));
    GrantSixListed(WinnerList(u, df), x);
  }

  /** A message sent between 5:00 and 5:59 counts towards both the night owl and the
      early bird, since both hour ranges include 5. */
  lemma HourFiveCountsTwice(msg: Message)
    requires Hour(msg.stamp) == 5
    ensures AtNight(msg) && Early(msg)
  {
  }

  /** The winner of a count is a most frequent cleaned author of the rows, and there
      is one exactly when there are rows. */
  lemma MostFrequentProps(u: Unicode, rows: seq<Message>)
    ensures MostFrequent(u, rows).Some? <==> rows != []
    ensures MostFrequent(u, rows).Some? ==>
      MostFrequent(u, rows).value in CleanAuthors(u, rows)
      && forall y :: multiset(CleanAuthors(u, rows))[y] <= multiset(CleanAuthors(u, rows))[MostFrequent(u, rows).value]
  {
    if rows != [] {
      ValueCountsTop(CleanAuthors(u, rows));
    }
  }

  /** The night owl writes the most messages between midnight and 5 o'clock, and
      there is one exactly when somebody writes then; likewise the early bird for 5
      to 7 o'clock, and the chatterbox over all messages. */
  lemma CountWinners(u: Unicode, df: seq<Message>)
    ensures NightOwlWinner(u, df).Some? <==> exists i :: 0 <= i < |df| && AtNight(df[i])
    ensures EarlyBirdWinner(u, df).Some? <==> exists i :: 0 <= i < |df| && Early(df[i])
    ensures ChatterboxWinner(u, df).Some? <==> df != []
    ensures ChatterboxWinner(u, df).Some? ==>
      forall y :: multiset(CleanAuthors(u, df))[y] <= multiset(CleanAuthors(u, df))[ChatterboxWinner(u, df).value]
  {
    FilterNonEmpty(df, AtNight);
    FilterNonEmpty(df, Early);
    MostFrequentProps(u, df);
  }

  lemma FilterNonEmpty(df: seq<Message>, p: Message -> bool)
    ensures Filter(df, p) != [] <==> exists i :: 0 <= i < |df| && p(df[i])
  {
    FilterProps(df, p);
    if Filter(df, p) != [] {
      var m := Filter(df, p)[0];
      assert multiset(Filter(df, p))[m] > 0;
      assert m in df;
    }
    if exists i :: 0 <= i < |df| && p(df[i]) {
      var i :| 0 <= i < |df| && p(df[i]);
      assert multiset(Filter(df, p))[df[i]] > 0;
    }
  }

  /** `Highest` picks a name with the largest value, `Lowest` one with the smallest. */
  lemma ExtremesProps(stats: seq<Stat>)
    ensures Highest(stats).Some? <==> stats != []
    ensures Lowest(stats).Some? <==> stats != []
    ensures stats != [] ==> exists k :: (0 <= k < |stats| && stats[k].name == Highest(stats).value
      && forall j :: 0 <= j < |stats| ==> stats[j].value <= stats[k].value)
    ensures stats != [] ==> exists k :: (0 <= k < |stats| && stats[k].name == Lowest(stats).value
      && forall j :: 0 <= j < |stats| ==> stats[k].value <= stats[j].value)
  {
    if stats != [] {
      var k := FirstArgMax(stats, StatValue);
      assert forall j :: 0 <= j < |stats| ==> StatValue(stats[j]) <= StatValue(stats[k]);
      var l := FirstArgMin(stats, StatValue);
      assert forall j :: 0 <= j < |stats| ==> StatValue(stats[l]) <= StatValue(stats[j]);
    }
  }

  /** Both figures exist and the first is at most the second. */
  predicate AtMost(a: Option<real>, b: Option<real>)
  {
    a.Some? && b.Some? && a.value <= b.value
  }

  /** Every top-ten author has a row (so a mean) exactly when the chat has messages. */
  lemma TopTenNonEmpty(u: Unicode, df: seq<Message>)
    ensures TopTen(u, df) != [] <==> df != []
  {
    assert |CleanAuthors(u, df)| == |df|;
    if df == [] {
      assert CleanAuthors(u, df) == [];
      assert Occurrences(CleanAuthors(u, df)) == [];
    }
  }

  /** The comedian is a top-ten author whose mean emoji ratio is the largest among the
      top ten, and the professor likewise for the mean message length; both exist
      exactly when the chat is not empty. */
  lemma MeanWinners(u: Unicode, df: seq<Message>)
    ensures ComedianWinner(u, df).Some? <==> df != []
    ensures ProfessorWinner(u, df).Some? <==> df != []
    ensures ComedianWinner(u, df).Some? ==> ComedianWinner(u, df).value in TopTen(u, df)
    ensures ComedianWinner(u, df).Some? ==> forall y :: y in TopTen(u, df) ==>
      AtMost(MeanOf(RowsOf(u, df, y), EmojiRatios(u)), MeanOf(RowsOf(u, df, ComedianWinner(u, df).value), EmojiRatios(u)))
    ensures ProfessorWinner(u, df).Some? ==> ProfessorWinner(u, df).value in TopTen(u, df)
    ensures ProfessorWinner(u, df).Some? ==> forall y :: y in TopTen(u, df) ==>
      AtMost(MeanOf(RowsOf(u, df, y), LengthKey), MeanOf(RowsOf(u, df, ProfessorWinner(u, df).value), LengthKey))
  {
    HighestMean(u, df, EmojiRatios(u));
    HighestMean(u, df, LengthKey);
  }

  lemma HighestMean(u: Unicode, df: seq<Message>, f: Message -> real)
    ensures var w := Highest(MeansFor(u, df, TopTen(u, df), f));
      && (w.Some? <==> df != [])
      && (w.Some? ==> w.value in TopTen(u, df))
      && (w.Some? ==> forall y :: y in TopTen(u, df) ==>
            AtMost(MeanOf(RowsOf(u, df, y), f), MeanOf(RowsOf(u, df, w.value), f)))
  {
    var top := TopTen(u, df);
    var means := MeansFor(u, df, top, f);
    MeansForProps(u, df, top, f);
    TopTenNonEmpty(u, df);
    if df != [] {
      TopAuthorsHaveRows(u, df, 10, top[0]);
      assert top[0] in top;
      assert means != [];
      var k := FirstArgMax(means, StatValue);
      assert means[k] in means;
      forall y | y in top
        ensures AtMost(MeanOf(RowsOf(u, df, y), f), MeanOf(RowsOf(u, df, means[k].name), f))
      {
        TopAuthorsHaveRows(u, df, 10, y);
        var s :| s in means && s.name == y;
        var j :| 0 <= j < |means| && means[j] == s;
        assert StatValue(means[j]) <= StatValue(means[k]);
      }
    } else {
      assert means == [];
    }
  }

  /** Lightning goes to a top-ten author with the lowest mean reply time among the top
      ten who replied; there is one exactly when a top-ten author replied. */
  lemma LightningProps(u: Unicode, df: seq<Message>)
    ensures var rs := ChatReplies(u, df);
      && (LightningWinner(u, df).Some? <==> exists x :: x in TopTen(u, df) && RepliesBy(rs, x) != [])
      && (LightningWinner(u, df).Some? ==> LightningWinner(u, df).value in TopTen(u, df))
      && (LightningWinner(u, df).Some? ==> forall y :: y in TopTen(u, df) && RepliesBy(rs, y) != [] ==>
            AtMost(MeanGap(RepliesBy(rs, LightningWinner(u, df).value)), MeanGap(RepliesBy(rs, y))))
  {
    LightningExists(u, df);
    if LightningWinner(u, df).Some? {
      LightningFastest(u, df);
    }
  }

  /** The top authors' reply means, restricted to the top authors' replies. */
  function TopReplyMeans(u: Unicode, df: seq<Message>, rs: seq<Reply>): seq<Stat>
  {
    ReplyMeans(RepliesAmong(rs, TopTen(u, df)), TopTen(u, df))
  }

  lemma TopReplies(u: Unicode, df: seq<Message>, rs: seq<Reply>)
    ensures forall y :: y in TopTen(u, df) ==> RepliesBy(RepliesAmong(rs, TopTen(u, df)), y) == RepliesBy(rs, y)
    ensures forall s :: s in TopReplyMeans(u, df, rs) ==>
      s.name in TopTen(u, df) && MeanGap(RepliesBy(rs, s.name)) == Some(s.value)
    ensures forall x :: x in TopTen(u, df) && RepliesBy(rs, x) != [] ==>
      exists s :: s in TopReplyMeans(u, df, rs) && s.name == x
    ensures TopReplyMeans(u, df, rs) == [] <==> forall x :: x in TopTen(u, df) ==> RepliesBy(rs, x) == []
  {
    var top := TopTen(u, df);
    var kept := RepliesAmong(rs, top);
    forall y | y in top ensures RepliesBy(kept, y) == RepliesBy(rs, y) {
      RepliesAmongProps(rs, top, y);
    }
    ReplyMeansProps(kept, top);
  }

  lemma LightningExists(u: Unicode, df: seq<Message>)
    ensures LightningWinner(u, df).Some? <==>
      exists x :: x in TopTen(u, df) && RepliesBy(ChatReplies(u, df), x) != []
  {
    var rs := ChatReplies(u, df);
    if rs != [] {
      TopReplies(u, df, rs);
      assert LightningWinner(u, df) == Lowest(TopReplyMeans(u, df, rs));
    } else {
      forall y ensures RepliesBy(rs, y) == [] {
      }
    }
  }

  lemma LightningFastest(u: Unicode, df: seq<Message>)
    requires LightningWinner(u, df).Some?
    ensures LightningWinner(u, df).value in TopTen(u, df)
    ensures forall y :: y in TopTen(u, df) && RepliesBy(ChatReplies(u, df), y) != [] ==>
      AtMost(MeanGap(RepliesBy(ChatReplies(u, df), LightningWinner(u, df).value)), MeanGap(RepliesBy(ChatReplies(u, df), y)))
  {
    var rs := ChatReplies(u, df);
    TopReplies(u, df, rs);
    assert LightningWinner(u, df) == Lowest(TopReplyMeans(u, df, rs));
    LowestFastest(rs, TopTen(u, df), TopReplyMeans(u, df, rs));
  }

  /** `idxmin` over one mean per replier of `top` picks one of them with the smallest
      mean reply time. */
  lemma LowestFastest(rs: seq<Reply>, top: seq<string>, means: seq<Stat>)
    requires means != []
    requires forall s :: s in means ==> s.name in top && MeanGap(RepliesBy(rs, s.name)) == Some(s.value)
    requires forall x :: x in top && RepliesBy(rs, x) != [] ==> exists s :: s in means && s.name == x
    ensures Lowest(means).value in top
    ensures forall y :: y in top && RepliesBy(rs, y) != [] ==>
      AtMost(MeanGap(RepliesBy(rs, Lowest(means).value)), MeanGap(RepliesBy(rs, y)))
  {
    var k := FirstArgMin(means, StatValue);
    assert means[k] in means;
    forall y | y in top && RepliesBy(rs, y) != []
      ensures AtMost(MeanGap(RepliesBy(rs, means[k].name)), MeanGap(RepliesBy(rs, y)))
    {
      var s :| s in means && s.name == y;
      var j :| 0 <= j < |means| && means[j] == s;
      assert StatValue(means[k]) <= StatValue(means[j]);
    }
  }

  /** The emoji ratio lies in [0, 1): a message has no more emoji than characters. */
  lemma EmojiRatioBounds(u: Unicode, msg: Message)
    ensures 0.0 <= EmojiRatio(u, msg) < 1.0
  {
    ExtractEmojisProps(u, msg.body);
    var e := |ExtractEmojis(u, msg.body)| as real;
    var d := (Length(msg) + 1) as real;
    assert e < d;
    RatioBelowOne(e, d);
  }

  lemma RatioBelowOne(e: real, d: real)
    requires 0.0 <= e < d
    ensures 0.0 <= e / d < 1.0
  {
  }
}
