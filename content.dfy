/** `analyze_links`, `analyze_message_length` and `analyze_word_frequency`: what the
    messages contain. */
module Content {
  import opened Wrappers
  import opened Seqs
  import opened Tally
  import opened TextUtils
  import opened Chat
  import opened Frame

  // ---------------------------------------------------------------- analyze_links

  /** The `has_link` column. */
  predicate IsLinkMessage(msg: Message)
  {
    HasLink(msg.body)
  }

  function LinkFlag(msg: Message): real
  {
    if IsLinkMessage(msg) then 1.0 else 0.0
  }

  lemma {:induction false} FilterAppend<T>(s: seq<T>, x: T, p: T -> bool)
    ensures Filter(s + [x], p) == Filter(s, p) + (if p(x) then [x] else [])
    decreases |s|
  {
    if s == [] {
      assert Filter([x], p) == (if p(x) then [x] else []) + Filter([x][1..], p);
    } else {
      assert (s + [x])[1..] == s[1..] + [x];
      FilterAppend(s[1..], x, p);
    }
  }

  /** Summing the `has_link` flags counts the link messages. */
  lemma {:induction false} LinkFlagSum(rows: seq<Message>)
    ensures SumOf(rows, LinkFlag) == |Filter(rows, IsLinkMessage)| as real
    decreases |rows|
  {
    if rows != [] {
      var init := rows[..|rows| - 1];
      LinkFlagSum(init);
      assert rows == init + [rows[|rows| - 1]];
      FilterAppend(init, rows[|rows| - 1], IsLinkMessage);
    }
  }

  datatype Links = Links(data: seq<Stat>, totalLinks: nat, topSharer: Option<string>)

  /** `analyze_links(limit)`: links shared by each of the `limit` most active authors,
      most first, the chat's total, and the top sharer when anyone shared one. */
  function AnalyzeLinks(u: Unicode, df: seq<Message>, limit: int): Links
  {
    var top := TopAuthors(u, df, limit);
    var data := Descending(SumsFor(u, df, top, LinkFlag));
    Links(data, |Filter(df, IsLinkMessage)|,
          if data != [] && data[0].value > 0.0 then Some(data[0].name) else None)
  }

  /** Each entry is a top author with the number of that author's messages that
      contain a link; every top author has an entry; entries come most links first;
      the total counts exactly the link messages of the whole chat. */
  lemma LinksEntries(u: Unicode, df: seq<Message>, limit: int)
    ensures var r := AnalyzeLinks(u, df, limit);
      var top := TopAuthors(u, df, limit);
      && (forall s :: s in r.data ==>
            s.name in top && s.value == |Filter(RowsOf(u, df, s.name), IsLinkMessage)| as real)
      && (forall x :: x in top ==> exists s :: s in r.data && s.name == x)
      && (forall i, j :: 0 <= i < j < |r.data| ==> r.data[i].value >= r.data[j].value)
      && (forall m :: multiset(Filter(df, IsLinkMessage))[m] == (if IsLinkMessage(m) then multiset(df)[m] else 0))
      && r.totalLinks == |Filter(df, IsLinkMessage)|
  {
    var r := AnalyzeLinks(u, df, limit);
    var top := TopAuthors(u, df, limit);
    var sums := SumsFor(u, df, top, LinkFlag);
    SumsForProps(u, df, top, LinkFlag);
    DescendingProps(sums);
    FilterProps(df, IsLinkMessage);
    forall s | s in r.data
      ensures s.name in top && s.value == |Filter(RowsOf(u, df, s.name), IsLinkMessage)| as real
    {
      assert s in multiset(r.data);
      assert s in sums;
      LinkFlagSum(RowsOf(u, df, s.name));
    }
    forall x | x in top ensures exists s :: s in r.data && s.name == x {
      TopAuthorsHaveRows(u, df, limit, x);
      var s :| s in sums && s.name == x;
      assert s in multiset(sums);
      assert s in multiset(r.data);
      assert s in r.data;
    }
  }

  /** There is a top sharer exactly when some top author shared a link, and then it
      is a top author with the most links. */
  lemma LinksTopSharer(u: Unicode, df: seq<Message>, limit: int)
    ensures var r := AnalyzeLinks(u, df, limit);
      var top := TopAuthors(u, df, limit);
      && (r.topSharer.Some? <==>
            exists x :: x in top && Filter(RowsOf(u, df, x), IsLinkMessage) != [])
      && (r.topSharer.Some? ==> r.topSharer.value in top)
      && (r.topSharer.Some? ==> forall x :: x in top ==>
            |Filter(RowsOf(u, df, x), IsLinkMessage)| <= |Filter(RowsOf(u, df, r.topSharer.value), IsLinkMessage)|)
  {
    var r := AnalyzeLinks(u, df, limit);
    var top := TopAuthors(u, df, limit);
    LinksEntries(u, df, limit);
    if r.data != [] {
      assert r.data[0] in r.data;
      forall x | x in top
        ensures |Filter(RowsOf(u, df, x), IsLinkMessage)| <= |Filter(RowsOf(u, df, r.data[0].name), IsLinkMessage)|
      {
        var s :| s in r.data && s.name == x;
        var j :| 0 <= j < |r.data| && r.data[j] == s;
        assert r.data[0].value >= s.value;
      }
      if exists x :: x in top && Filter(RowsOf(u, df, x), IsLinkMessage) != [] {
        var x :| x in top && Filter(RowsOf(u, df, x), IsLinkMessage) != [];
        assert |Filter(RowsOf(u, df, x), IsLinkMessage)| <= |Filter(RowsOf(u, df, r.data[0].name), IsLinkMessage)|;
      }
    }
  }

  // ---------------------------------------------------------------- analyze_message_length

  function LengthKey(msg: Message): real
  {
    Length(msg) as real
  }

  /** How much of the longest message is shown. */
  const PreviewLength := 200

  /** The first 200 characters followed by `...` when the text is longer, else the
      whole text. */
  function Preview(body: string): (p: string)
    ensures |body| <= PreviewLength ==> p == body
    ensures |body| > PreviewLength ==> |p| == PreviewLength + 3 && p[..PreviewLength] == body[..PreviewLength]
    ensures p == body || p[..|p| - 3] + "..." == p
  {
    if |body| > PreviewLength then body[..PreviewLength] + "..." else body
  }

  datatype Longest = Longest(author: string, length: nat, preview: string)

  datatype MessageLength = MessageLength(data: seq<Stat>, longest: Longest)

  /** `analyze_message_length(limit)`: the mean length of the messages of each of the
      `limit` most active authors, longest first, and the longest single message (the
      first one, if several are equally long). `None` for an empty chat, where
      `idxmax` raises. */
  function AnalyzeMessageLength(u: Unicode, df: seq<Message>, limit: int): (r: Option<MessageLength>)
    ensures r.None? <==> df == []
  {
    if df == [] then None
    else
      var top := TopAuthors(u, df, limit);
      var k := FirstArgMax(df, LengthKey);
      Some(MessageLength(
        Descending(MeansFor(u, df, top, LengthKey)),
        Longest(CleanAuthor(u, df[k]), Length(df[k]), Preview(df[k].body))))
  }

  /** Each entry is a top author with the mean length of that author's messages; every
      top author has one; means come largest first. */
  lemma MessageLengthMeans(u: Unicode, df: seq<Message>, limit: int)
    requires df != []
    ensures var r := AnalyzeMessageLength(u, df, limit).value;
      var top := TopAuthors(u, df, limit);
      && (forall s :: s in r.data ==> s.name in top && MeanOf(RowsOf(u, df, s.name), LengthKey) == Some(s.value))
      && (forall x :: x in top ==> exists s :: s in r.data && s.name == x)
      && (forall i, j :: 0 <= i < j < |r.data| ==> r.data[i].value >= r.data[j].value)
  {
    var r := AnalyzeMessageLength(u, df, limit).value;
    var top := TopAuthors(u, df, limit);
    var means := MeansFor(u, df, top, LengthKey);
    MeansForProps(u, df, top, LengthKey);
    DescendingProps(means);
    assert r.data == Descending(means);
    forall s | s in r.data ensures s.name in top && MeanOf(RowsOf(u, df, s.name), LengthKey) == Some(s.value) {
      assert s in multiset(r.data);
      assert s in means;
    }
    forall x | x in top ensures exists s :: s in r.data && s.name == x {
      TopAuthorsHaveRows(u, df, limit, x);
      var s :| s in means && s.name == x;
      assert s in multiset(means);
      assert s in multiset(r.data);
      assert s in r.data;
    }
  }

  /** The longest message is at least as long as every message and longer than every
      one before it; its author is shown cleaned, and its preview is its text cut to
      200 characters with `...` added when longer. */
  lemma LongestMessage(u: Unicode, df: seq<Message>, limit: int)
    requires df != []
    ensures var l := AnalyzeMessageLength(u, df, limit).value.longest;
      && (forall i :: 0 <= i < |df| ==> Length(df[i]) <= l.length)
      && (exists k :: 0 <= k < |df| && l.length == Length(df[k]) && l.author == CleanAuthor(u, df[k])
            && l.preview == Preview(df[k].body)
            && forall i :: 0 <= i < k ==> Length(df[i]) < l.length)
      && |l.preview| <= PreviewLength + 3
      && (l.length <= PreviewLength ==> |l.preview| == l.length)
  {
    var k := FirstArgMax(df, LengthKey);
    assert forall i :: 0 <= i < |df| ==> LengthKey(df[i]) <= LengthKey(df[k]);
    assert forall i :: 0 <= i < k ==> LengthKey(df[i]) < LengthKey(df[k]);
  }

  // ---------------------------------------------------------------- analyze_word_frequency

  /** The words the word cloud ignores. */
  const StopWords: set<string> := {"media", "omitted", "image", "video", "sticker", "message",
                                   "deleted", "null", "the", "and", "is", "a", "of", "to"}

  /** The shortest word `\b\w{3,}\b` matches. */
  const MinWordLength := 3

  /** The first position at or after `j` that is not a word character. */
  function RunEnd(u: Unicode, s: string, j: nat): (e: nat)
    requires j <= |s|
    ensures j <= e <= |s|
    ensures forall k :: j <= k < e ==> u.isWord(s[k])
    ensures e < |s| ==> !u.isWord(s[e])
    decreases |s| - j
  {
    if j < |s| && u.isWord(s[j]) then RunEnd(u, s, j + 1) else j
  }

  /** `s[j..e]` is a maximal run of word characters: `\b\w+\b` matches it exactly. */
  predicate IsWordRun(u: Unicode, s: string, j: int, e: int)
  {
    && 0 <= j < e <= |s|
    && (forall k :: j <= k < e ==> u.isWord(s[k]))
    && (j == 0 || !u.isWord(s[j - 1]))
    && (e == |s| || !u.isWord(s[e]))
  }

  /** No word run straddles position `i`. */
  predicate AtBoundary(u: Unicode, s: string, i: nat)
  {
    i == 0 || i >= |s| || !u.isWord(s[i - 1]) || !u.isWord(s[i])
  }

  /** `re.findall(r'\b\w{3,}\b', s[i..])` when `i` is on a boundary: the maximal word
      runs of at least three characters, in order. */
  function WordsFrom(u: Unicode, s: string, i: nat): seq<string>
    decreases |s| - i
  {
    if i >= |s| then []
    else if !u.isWord(s[i]) then WordsFrom(u, s, i + 1)
    else
      var e := RunEnd(u, s, i);
      (if e - i >= MinWordLength then [s[i..e]] else []) + WordsFrom(u, s, e)
  }

  /** `w` is the maximal word run of `s` that starts at `j`. */
  predicate RunAt(u: Unicode, s: string, w: string, j: int)
  {
    IsWordRun(u, s, j, j + |w|) && s[j..j + |w|] == w
  }

  /** `w` is one of the maximal word runs of `s` starting at or after `i`. */
  ghost predicate RunFrom(u: Unicode, s: string, w: string, i: nat)
  {
    exists j :: i <= j && RunAt(u, s, w, j)
  }

  lemma RunFromWeaken(u: Unicode, s: string, w: string, i: nat, k: nat)
    requires k <= i && RunFrom(u, s, w, i)
    ensures RunFrom(u, s, w, k)
  {
    var j :| i <= j && RunAt(u, s, w, j);
    assert k <= j;
  }

  /** Every word found is a maximal run of at least three word characters. */
  lemma {:induction false} WordsFromSound(u: Unicode, s: string, i: nat)
    requires AtBoundary(u, s, i)
    ensures forall w :: w in WordsFrom(u, s, i) ==> |w| >= MinWordLength && RunFrom(u, s, w, i)
    decreases |s| - i
  {
    if i < |s| {
      if !u.isWord(s[i]) {
        WordsFromSound(u, s, i + 1);
        forall w | w in WordsFrom(u, s, i) ensures RunFrom(u, s, w, i) {
          RunFromWeaken(u, s, w, i + 1, i);
        }
      } else {
        var e := RunEnd(u, s, i);
        WordsFromSound(u, s, e);
        forall w | w in WordsFrom(u, s, i) ensures |w| >= MinWordLength && RunFrom(u, s, w, i) {
          if e - i >= MinWordLength && w == s[i..e] {
            assert RunAt(u, s, w, i);
          } else {
            assert w in WordsFrom(u, s, e);
            RunFromWeaken(u, s, w, e, i);
          }
        }
      }
    }
  }

  /** Every maximal run of at least three word characters is found. */
  lemma {:induction false} WordsFromComplete(u: Unicode, s: string, i: nat, j: nat, e: nat)
    requires i <= j && IsWordRun(u, s, j, e) && e - j >= MinWordLength
    ensures s[j..e] in WordsFrom(u, s, i)
    decreases |s| - i
  {
    if !u.isWord(s[i]) {
      WordsFromComplete(u, s, i + 1, j, e);
    } else {
      var end := RunEnd(u, s, i);
      if j == i {
        assert end == e;
      } else {
        assert end <= j - 1;
        WordsFromComplete(u, s, end, j, e);
      }
    }
  }

  /** The lower-cased text of all messages, joined by spaces. */
  function AllText(u: Unicode, df: seq<Message>): string
  {
    MapChars(JoinSpace(seq(|df|, i requires 0 <= i < |df| => df[i].body)), u.lower)
  }

  predicate Kept(w: string)
  {
    w !in StopWords
  }

  /** The words of the chat that count, in order. */
  function ChatWords(u: Unicode, df: seq<Message>): seq<string>
  {
    Filter(WordsFrom(u, AllText(u, df), 0), Kept)
  }

  /** `analyze_word_frequency(limit)`: the `limit` most common words with their counts. */
  function AnalyzeWordFrequency(u: Unicode, df: seq<Message>, limit: int): seq<Entry<string>>
  {
    MostCommon(ChatWords(u, df), limit)
  }

  /** Stop words shorter than three characters can never be matched, so only the
      longer ones filter anything. */
  lemma ShortStopWordsInert(u: Unicode, df: seq<Message>)
    ensures ChatWords(u, df) == Filter(WordsFrom(u, AllText(u, df), 0),
                                       w => w !in (set x | x in StopWords && |x| >= MinWordLength))
  {
    var ws := WordsFrom(u, AllText(u, df), 0);
    WordsFromSound(u, AllText(u, df), 0);
    FilterSame(ws, Kept, w => w !in (set x | x in StopWords && |x| >= MinWordLength));
  }

  lemma {:induction false} FilterSame<T>(s: seq<T>, p: T -> bool, q: T -> bool)
    requires forall i :: 0 <= i < |s| ==> p(s[i]) == q(s[i])
    ensures Filter(s, p) == Filter(s, q)
    decreases |s|
  {
    if s != [] {
      FilterSame(s[1..], p, q);
    }
  }

  /** Every counted word is a maximal run of at least three word characters of the
      lower-cased text, and not a stop word. */
  lemma ChatWordsSound(u: Unicode, df: seq<Message>)
    ensures forall w :: w in ChatWords(u, df) ==>
      |w| >= MinWordLength && w !in StopWords && RunFrom(u, AllText(u, df), w, 0)
  {
    var ws := WordsFrom(u, AllText(u, df), 0);
    WordsFromSound(u, AllText(u, df), 0);
    FilterProps(ws, Kept);
    forall w | w in ChatWords(u, df) ensures w in ws && w !in StopWords {
      assert multiset(ChatWords(u, df))[w] > 0;
    }
  }

  /** Every such run that is not a stop word is counted. */
  lemma ChatWordsComplete(u: Unicode, df: seq<Message>, j: nat, e: nat)
    requires IsWordRun(u, AllText(u, df), j, e) && e - j >= MinWordLength
    requires AllText(u, df)[j..e] !in StopWords
    ensures AllText(u, df)[j..e] in ChatWords(u, df)
  {
    var text := AllText(u, df);
    var ws := WordsFrom(u, text, 0);
    var w := text[j..e];
    WordsFromComplete(u, text, 0, j, e);
    assert multiset(ws)[w] > 0 && Kept(w);
    FilterMultiset(ws, Kept);
    assert multiset(Filter(ws, Kept))[w] > 0;
  }

  /** A counted word occurs as often as it occurs among the runs; a stop word never. */
  lemma ChatWordsCount(u: Unicode, df: seq<Message>, w: string)
    ensures multiset(ChatWords(u, df))[w] ==
      if w in StopWords then 0 else multiset(WordsFrom(u, AllText(u, df), 0))[w]
  {
    FilterProps(WordsFrom(u, AllText(u, df), 0), Kept);
  }

  /** At most `limit` distinct words, none for a limit of 0 or less, each with its
      number of occurrences among the counted words, most frequent first. */
  lemma WordFrequencyProps(u: Unicode, df: seq<Message>, limit: int)
    ensures var r := AnalyzeWordFrequency(u, df, limit);
      var words := ChatWords(u, df);
      && (limit <= 0 ==> r == [])
      && (limit >= 0 ==> |r| <= limit)
      && (forall i, j :: 0 <= i < j < |r| ==> r[i].key != r[j].key)
      && (forall i :: 0 <= i < |r| ==> r[i].key in words && r[i].count == multiset(words)[r[i].key] >= 1)
      && (forall i, j :: 0 <= i < j < |r| ==> r[i].count >= r[j].count)
      && (limit >= 1 ==> TopSelection(r, (set w | w in words), w => multiset(words)[w], limit))
      && (limit >= 1 ==> (r == [] <==> words == []))
  {
    var words := ChatWords(u, df);
    var vc := ValueCounts(words);
    var r := AnalyzeWordFrequency(u, df, limit);
    WordFrequencyTop(u, df, limit);
    ValueCountsProps(words);
    assert r == vc[..|r|];
    forall i | 0 <= i < |r| ensures r[i].key in words && r[i].count == multiset(words)[r[i].key] >= 1 {
      ValueCountsEntry(words, i);
    }
  }

  /** For a positive limit the result is the `limit` most common counted words, and
      it is empty exactly when the chat has no counted word. */
  lemma WordFrequencyTop(u: Unicode, df: seq<Message>, limit: int)
    ensures var r := AnalyzeWordFrequency(u, df, limit);
      var words := ChatWords(u, df);
      && (limit >= 1 ==> TopSelection(r, (set w | w in words), w => multiset(words)[w], limit))
      && (limit >= 1 ==> (r == [] <==> words == []))
  {
    var words := ChatWords(u, df);
    if limit >= 1 {
      assert AnalyzeWordFrequency(u, df, limit) == PyPrefix(ValueCounts(words), limit);
      ValueCountsHead(words, limit);
    }
  }
}
