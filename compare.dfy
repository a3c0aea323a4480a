/** `compare_user_to_group`: one author's figures beside the group's. */
module Comparison {
  import opened Wrappers
  import opened TextUtils
  import opened Chat
  import opened Frame
  import opened Content

  /** A user's figure and the group's. */
  datatype Pair = Pair(user: real, group: real)

  datatype UserComparison = UserComparison(
    userName: string,
    userMessages: nat,
    groupAvgMessages: real,
    avgMessageLength: Pair,
    userResponse: Option<real>,   // `None` is NaN
    groupResponse: real,
    positivity: Pair,
    userEmojis: nat,
    groupAvgEmojis: real)

  /** The number of emoji in the rows' messages. */
  function EmojiTotal(u: Unicode, rows: seq<Message>): nat
  {
    if rows == [] then 0 else EmojiTotal(u, rows[..|rows| - 1]) + |ExtractEmojis(u, rows[|rows| - 1].body)|
  }

  /** The mean of a per-row figure over rows that exist. */
  function Mean(rows: seq<Message>, f: Message -> real): (m: real)
    requires rows != []
    ensures MeanOf(rows, f) == Some(m)
  {
    SumOf(rows, f) / |rows| as real
  }

  /** The sentiment score of each message's text. */
  function Scores(polarity: string -> real): Message -> real
  {
    (m: Message) => polarity(m.body)
  }

  /** The mean sentiment score of the rows, as a percentage. */
  function Positivity(rows: seq<Message>, polarity: string -> real): real
    requires rows != []
  {
    Mean(rows, Scores(polarity)) * 100.0
  }

  /** `compare_user_to_group(user_name)`: `None` when no message is by that cleaned
      name. Averages per author divide by the number of distinct raw authors. The
      user's reply time is 0 when the chat has no reply at all and NaN when only the
      user has none; `polarity` stands for the sentiment scorer. */
  function CompareUserToGroup(u: Unicode, df: seq<Message>, userName: string, polarity: string -> real)
    : (r: Option<UserComparison>)
    ensures r.None? <==> CleanName(u, userName, DisplayWidth) !in CleanAuthors(u, df)
  {
    var clean := CleanName(u, userName, DisplayWidth);
    if clean !in CleanAuthors(u, df) then None
    else
      RowsOfMember(u, df, clean);
      Some(Compared(u, df, clean, polarity))
  }

  /** The figures for a cleaned name that has messages. */
  function Compared(u: Unicode, df: seq<Message>, clean: string, polarity: string -> real): UserComparison
    requires RowsOf(u, df, clean) != [] && df != []
  {
    var rows := RowsOf(u, df, clean);
    var numAuthors := AuthorCount(df);
    var rs := ChatReplies(u, df);
    UserComparison(
      clean,
      |rows|, |df| as real / numAuthors as real,
      Pair(Mean(rows, LengthKey), Mean(df, LengthKey)),
      if rs == [] then Some(0.0) else MeanGap(RepliesBy(rs, clean)),
      if rs == [] then 0.0 else MeanGap(rs).value,
      Pair(Positivity(rows, polarity), Positivity(df, polarity)),
      EmojiTotal(u, rows), EmojiTotal(u, df) as real / numAuthors as real)
  }

  lemma RowsOfMember(u: Unicode, df: seq<Message>, name: string)
    requires name in CleanAuthors(u, df)
    ensures RowsOf(u, df, name) != []
    ensures df != []
  {
    RowsOfCount(u, df, name);
  }

  /** `df['Author'].nunique()`: the number of distinct raw authors, at least one when
      there are messages and at most one per message. */
  function AuthorCount(df: seq<Message>): (n: nat)
    ensures df != [] ==> n > 0
    ensures n <= |df|
  {
    AuthorsBound(Authors(df));
    var names := set a | a in Authors(df);
    assert df != [] ==> Authors(df)[0] in names;
    |names|
  }

  lemma {:induction false} AuthorsBound(s: seq<string>)
    ensures |set a | a in s| <= |s|
  {
    if s != [] {
      var init := s[..|s| - 1];
      AuthorsBound(init);
      assert (set a | a in s) == (set a | a in init) + {s[|s| - 1]};
    }
  }

  /** The user's message count is the number of messages under the cleaned name, at
      least one and at most all; the group average times the number of distinct
      authors gives all messages; both length figures are means over the user's and
      everybody's messages. */
  lemma {:induction false} CompareMessages(u: Unicode, df: seq<Message>, userName: string, polarity: string -> real)
    requires CompareUserToGroup(u, df, userName, polarity).Some?
    ensures var c := CompareUserToGroup(u, df, userName, polarity).value;
      var n := AuthorCount(df);
      && c.userName == CleanName(u, userName, DisplayWidth)
      && c.userMessages == multiset(CleanAuthors(u, df))[c.userName]
      && 1 <= c.userMessages <= |df|
      && 1 <= n <= |df| && c.groupAvgMessages == |df| as real / n as real
      && MeanOf(RowsOf(u, df, c.userName), LengthKey) == Some(c.avgMessageLength.user)
      && MeanOf(df, LengthKey) == Some(c.avgMessageLength.group)
  {
    var clean := CleanName(u, userName, DisplayWidth);
    RowsOfMember(u, df, clean);
    assert CompareUserToGroup(u, df, userName, polarity).value == Compared(u, df, clean, polarity);
    RowsOfCount(u, df, clean);
    RowsOfBound(u, df, clean);
  }

  lemma {:induction false} RowsOfBound(u: Unicode, df: seq<Message>, name: string)
    ensures |RowsOf(u, df, name)| <= |df|
  {
    if df != [] {
      RowsOfBound(u, df[..|df| - 1], name);
    }
  }

  /** Without replies both reply figures are 0; otherwise the group figure is the mean
      of all replies, and the user's is the mean of the user's replies, NaN when there
      is none. */
  lemma {:induction false} CompareResponse(u: Unicode, df: seq<Message>, userName: string, polarity: string -> real)
    requires CompareUserToGroup(u, df, userName, polarity).Some?
    ensures var c := CompareUserToGroup(u, df, userName, polarity).value;
      var rs := ChatReplies(u, df);
      && (rs == [] ==> c.userResponse == Some(0.0) && c.groupResponse == 0.0)
      && (rs != [] ==> MeanGap(rs) == Some(c.groupResponse))
      && (rs != [] ==> c.userResponse == MeanGap(RepliesBy(rs, c.userName)))
      && (rs != [] ==> (c.userResponse.None? <==> forall r :: r in rs ==> r.clean != c.userName))
  {
    var rs := ChatReplies(u, df);
    var clean := CleanName(u, userName, DisplayWidth);
    RowsOfMember(u, df, clean);
    assert CompareUserToGroup(u, df, userName, polarity).value == Compared(u, df, clean, polarity);
    if rs != [] {
      RepliesByEmpty(rs, clean);
    }
  }

  lemma {:induction false} RepliesByEmpty(rs: seq<Reply>, name: string)
    ensures RepliesBy(rs, name) == [] <==> forall r :: r in rs ==> r.clean != name
    decreases |rs|
  {
    if rs != [] {
      var init := rs[..|rs| - 1];
      RepliesByEmpty(init, name);
      assert rs == init + [rs[|rs| - 1]];
    }
  }

  /** The user's emoji are among everybody's, and the group figure is everybody's
      emoji shared out per distinct author. */
  lemma {:induction false} CompareEmojis(u: Unicode, df: seq<Message>, userName: string, polarity: string -> real)
    requires CompareUserToGroup(u, df, userName, polarity).Some?
    ensures var c := CompareUserToGroup(u, df, userName, polarity).value;
      && c.userEmojis == EmojiTotal(u, RowsOf(u, df, c.userName))
      && c.userEmojis <= EmojiTotal(u, df)
      && c.groupAvgEmojis == EmojiTotal(u, df) as real / AuthorCount(df) as real
  {
    var clean := CleanName(u, userName, DisplayWidth);
    RowsOfMember(u, df, clean);
    assert CompareUserToGroup(u, df, userName, polarity).value == Compared(u, df, clean, polarity);
    EmojiTotalRows(u, df, clean);
  }

  lemma {:induction false} EmojiTotalRows(u: Unicode, df: seq<Message>, name: string)
    ensures EmojiTotal(u, RowsOf(u, df, name)) <= EmojiTotal(u, df)
    decreases |df|
  {
    if df != [] {
      var init := df[..|df| - 1];
      var last := df[|df| - 1];
      EmojiTotalRows(u, init, name);
      var rows := RowsOf(u, init, name);
      if CleanAuthor(u, last) == name {
        assert RowsOf(u, df, name) == rows + [last];
        assert (rows + [last])[..|rows + [last]| - 1] == rows;
      } else {
        assert RowsOf(u, df, name) == rows;
      }
    }
  }

  /** The positivity figures are the mean scores of the user's and of everybody's
      messages, as percentages. */
  lemma {:induction false} ComparePositivity(u: Unicode, df: seq<Message>, userName: string, polarity: string -> real)
    requires CompareUserToGroup(u, df, userName, polarity).Some?
    ensures var c := CompareUserToGroup(u, df, userName, polarity).value;
      var user, group := MeanOf(RowsOf(u, df, c.userName), Scores(polarity)), MeanOf(df, Scores(polarity));
      && user.Some? && c.positivity.user == user.value * 100.0
      && group.Some? && c.positivity.group == group.value * 100.0
      && ((forall t :: -1.0 <= polarity(t) <= 1.0) ==>
            && -100.0 <= c.positivity.user <= 100.0
            && -100.0 <= c.positivity.group <= 100.0)
  {
    var clean := CleanName(u, userName, DisplayWidth);
    RowsOfMember(u, df, clean);
    assert CompareUserToGroup(u, df, userName, polarity).value == Compared(u, df, clean, polarity);
    if forall t :: -1.0 <= polarity(t) <= 1.0 {
      forall m: Message ensures -1.0 <= Scores(polarity)(m) <= 1.0 {
        assert -1.0 <= polarity(m.body) <= 1.0;
      }
      MeanOfBounds(RowsOf(u, df, clean), Scores(polarity), -1.0, 1.0);
      MeanOfBounds(df, Scores(polarity), -1.0, 1.0);
    }
  }
}
