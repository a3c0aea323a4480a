/** The transcript parser of `src/parser.py`: grammar selection by sampling, date
    separator normalisation, the line loop that rebuilds multi-line messages, and the
    timestamp step that drops what cannot be parsed. The regular expressions and
    pandas' date parser are parameters. */
module Parser {
  import opened Wrappers
  import opened Seqs
  import opened TextUtils
  import opened Chat

  /** The four groups a message-start grammar captures. */
  datatype Groups = Groups(date: string, time: string, author: string, body: string)

  /** One reassembled message before its timestamp is parsed. */
  datatype Record = Record(date: string, time: string, author: string, body: string)

  /** How many leading lines grammar selection looks at. */
  const SampleSize := 100

  // ---------------------------------------------------------------- splitlines

  /** The line boundaries of `str.splitlines()`. */
  predicate IsLineBreak(c: char)
  {
    c as int in {10, 11, 12, 13, 28, 29, 30, 133, 0x2028, 0x2029}
  }

  /** The first line break at or after `i`, or `|s|`. */
  function BreakFrom(s: string, i: nat): (j: nat)
    requires i <= |s|
    ensures i <= j <= |s|
    ensures forall k :: i <= k < j ==> !IsLineBreak(s[k])
    ensures j < |s| ==> IsLineBreak(s[j])
    decreases |s| - i
  {
    if i == |s| || IsLineBreak(s[i]) then i else BreakFrom(s, i + 1)
  }

  /** `str.splitlines()`: `\r\n` is one boundary, and a final boundary opens no line. */
  function SplitLines(s: string): seq<string>
    decreases |s|
  {
    if s == [] then []
    else
      var i := BreakFrom(s, 0);
      if i == |s| then [s]
      else [s[..i]] + SplitLines(s[AfterBreak(s, i)..])
  }

  /** Where the line after the boundary at `i` starts: past `\r\n` as one boundary. */
  function AfterBreak(s: string, i: nat): (n: nat)
    requires i < |s|
    ensures i < n <= |s|
  {
    if s[i] == '\r' && i + 1 < |s| && s[i + 1] == '\n' then i + 2 else i + 1
  }

  /** No line holds a line break, and only empty content has no lines. */
  lemma {:induction false} SplitLinesProps(s: string)
    ensures SplitLines(s) == [] <==> s == []
    ensures forall n, k :: 0 <= n < |SplitLines(s)| && 0 <= k < |SplitLines(s)[n]| ==>
      !IsLineBreak(SplitLines(s)[n][k])
    decreases |s|
  {
    if s != [] {
      var i := BreakFrom(s, 0);
      if i < |s| {
        var rest := SplitLines(s[AfterBreak(s, i)..]);
        SplitLinesProps(s[AfterBreak(s, i)..]);
        var lines := SplitLines(s);
        assert lines == [s[..i]] + rest;
        forall n, k | 0 <= n < |lines| && 0 <= k < |lines[n]| ensures !IsLineBreak(lines[n][k]) {
          if n == 0 {
            assert lines[n][k] == s[k];
          } else {
            assert lines[n] == rest[n - 1];
          }
        }
      }
    }
  }

  // ---------------------------------------------------------------- normalize_date

  /** `str.replace(old, new)` for single characters. */
  function ReplaceChar(s: string, from: char, to: char): string
  {
    MapChars(s, c => if c == from then to else c)
  }

  /** `normalize_date`: every `-` and then every `.` becomes `/`. */
  function NormalizeDate(date: string): string
  {
    ReplaceChar(ReplaceChar(date, '-', '/'), '.', '/')
  }

  /** The normalised date has the input's length, no `-` and no `.`, a `/` wherever the
      input had one of them, and every other character unchanged. */
  lemma NormalizeDateProps(date: string)
    ensures |NormalizeDate(date)| == |date|
    ensures forall i :: 0 <= i < |date| ==>
      NormalizeDate(date)[i] == (if date[i] == '-' || date[i] == '.' then '/' else date[i])
    ensures forall i :: 0 <= i < |date| ==> NormalizeDate(date)[i] != '-' && NormalizeDate(date)[i] != '.'
  {
  }

  // ---------------------------------------------------------------- detect_best_pattern

  /** How many lines of the sample grammar `p` recognises as a message start, each line
      stripped first. */
  function MatchCount<P>(u: Unicode, sample: seq<string>, matches: (P, string) -> Option<Groups>, p: P): nat
  {
    if sample == [] then 0
    else MatchCount(u, sample[..|sample| - 1], matches, p)
         + (if matches(p, Strip(u, sample[|sample| - 1])).Some? then 1 else 0)
  }

  /** The lines grammar selection consults: `lines[:100]`. */
  function Sample(lines: seq<string>): seq<string>
  {
    PyPrefix(lines, SampleSize)
  }

  /** Grammar `patterns[k]` is the one selection must pick: its count on the sample is
      the highest, and every earlier grammar counts strictly fewer lines. */
  predicate IsBestPattern<P>(u: Unicode, lines: seq<string>, patterns: seq<P>,
                             matches: (P, string) -> Option<Groups>, k: int)
  {
    && 0 <= k < |patterns|
    && (forall j :: 0 <= j < |patterns| ==>
          MatchCount(u, Sample(lines), matches, patterns[j]) <= MatchCount(u, Sample(lines), matches, patterns[k]))
    && (forall j :: 0 <= j < k ==>
          MatchCount(u, Sample(lines), matches, patterns[j]) < MatchCount(u, Sample(lines), matches, patterns[k]))
  }

  /** `detect_best_pattern`: the earliest grammar with the highest match count on the
      first 100 lines; the first grammar when nothing matches. */
  method DetectBestPattern<P>(u: Unicode, lines: seq<string>, patterns: seq<P>,
                              matches: (P, string) -> Option<Groups>) returns (best: P)
    requires |patterns| > 0
    ensures exists k :: IsBestPattern(u, lines, patterns, matches, k) && best == patterns[k]
    ensures (forall j :: 0 <= j < |patterns| ==> MatchCount(u, Sample(lines), matches, patterns[j]) == 0)
      ==> best == patterns[0]
  {
    best := patterns[0];
    var bestCount := 0;
    var sample := Sample(lines);
    ghost var k := 0;
    for i := 0 to |patterns|
      invariant 0 <= k < |patterns| && best == patterns[k]
      invariant (k == 0 && bestCount == 0) || (k < i && bestCount == MatchCount(u, sample, matches, patterns[k]) > 0)
      invariant forall j :: 0 <= j < i ==> MatchCount(u, sample, matches, patterns[j]) <= bestCount
      invariant forall j :: 0 <= j < k ==> MatchCount(u, sample, matches, patterns[j]) < bestCount
    {
      var count := MatchCount(u, sample, matches, patterns[i]);
      if count > bestCount {
        bestCount := count;
        best := patterns[i];
        k := i;
      }
    }
    assert IsBestPattern(u, lines, patterns, matches, k);
  }

  /** Only the sample decides: two transcripts that agree on their first 100 lines select
      the same grammar. */
  lemma BestPatternSampleOnly<P>(u: Unicode, a: seq<string>, b: seq<string>, patterns: seq<P>,
                                 matches: (P, string) -> Option<Groups>, k: int)
    requires Sample(a) == Sample(b)
    ensures IsBestPattern(u, a, patterns, matches, k) <==> IsBestPattern(u, b, patterns, matches, k)
  {
  }

  /** At most one grammar index satisfies the selection rule, so the choice is determined. */
  lemma BestPatternUnique<P>(u: Unicode, lines: seq<string>, patterns: seq<P>,
                             matches: (P, string) -> Option<Groups>, k1: int, k2: int)
    requires IsBestPattern(u, lines, patterns, matches, k1)
    requires IsBestPattern(u, lines, patterns, matches, k2)
    ensures k1 == k2
  {
    var c1 := MatchCount(u, Sample(lines), matches, patterns[k1]);
    var c2 := MatchCount(u, Sample(lines), matches, patterns[k2]);
    assert c1 <= c2 && c2 <= c1;
  }

  // ---------------------------------------------------------------- the line loop

  /** Every line stripped, as the loop sees it. */
  function StripAll(u: Unicode, lines: seq<string>): (r: seq<string>)
    ensures |r| == |lines|
    ensures forall i :: 0 <= i < |lines| ==> r[i] == Strip(u, lines[i])
  {
    seq(|lines|, i requires 0 <= i < |lines| => Strip(u, lines[i]))
  }

  /** `t` is a slice of `s` with only whitespace cut from either end. */
  predicate TrimmedSlice(u: Unicode, t: string, s: string)
  {
    exists a, b :: 0 <= a <= b <= |s| && t == s[a..b]
      && (forall j :: 0 <= j < a ==> u.isSpace(s[j]))
      && (forall j :: b <= j < |s| ==> u.isSpace(s[j]))
  }

  /** Each stripped line is a slice of its line with only whitespace cut from either
      end, and it neither starts nor ends with whitespace. */
  lemma StripAllProps(u: Unicode, lines: seq<string>)
    ensures |StripAll(u, lines)| == |lines|
    ensures forall i :: 0 <= i < |lines| ==> TrimmedSlice(u, StripAll(u, lines)[i], lines[i])
    ensures forall i :: 0 <= i < |lines| && StripAll(u, lines)[i] != [] ==>
      var t := StripAll(u, lines)[i];
      !u.isSpace(t[0]) && !u.isSpace(t[|t| - 1])
  {
    forall i | 0 <= i < |lines|
      ensures TrimmedSlice(u, StripAll(u, lines)[i], lines[i])
      ensures StripAll(u, lines)[i] != [] ==>
        var t := StripAll(u, lines)[i];
        !u.isSpace(t[0]) && !u.isSpace(t[|t| - 1])
    {
      var a, b := StripSlice(u, lines[i]);
      assert StripAll(u, lines)[i] == lines[i][a..b];
    }
  }

  predicate IsStart(m: string -> Option<Groups>, line: string)
  {
    m(line).Some?
  }

  /** A start line whose captured author is non-empty (Python's `if author:`). */
  predicate IsAuthored(m: string -> Option<Groups>, line: string)
  {
    m(line).Some? && m(line).value.author != ""
  }

  /** No line in `lines[a..b]` starts a message. */
  predicate NoStartIn(m: string -> Option<Groups>, lines: seq<string>, a: nat, b: nat)
    requires a <= b <= |lines|
  {
    forall i :: a <= i < b ==> !IsStart(m, lines[i])
  }

  /** The first start line at or after `j`, or `|lines|`. */
  function NextStart(m: string -> Option<Groups>, lines: seq<string>, j: nat): (e: nat)
    requires j <= |lines|
    ensures j <= e <= |lines| && NoStartIn(m, lines, j, e)
    ensures e < |lines| ==> IsStart(m, lines[e])
    decreases |lines| - j
  {
    if j == |lines| || IsStart(m, lines[j]) then j else NextStart(m, lines, j + 1)
  }

  /** The message that start line `i` opens: its captured fields, the date normalised,
      and its body followed by every continuation line up to the next start line. */
  function RecordAt(m: string -> Option<Groups>, lines: seq<string>, i: nat): Record
    requires i < |lines| && IsStart(m, lines[i])
  {
    var g := m(lines[i]).value;
    Record(NormalizeDate(g.date), g.time, g.author,
           JoinSpace([g.body] + lines[i + 1..NextStart(m, lines, i + 1)]))
  }

  /** The records opened by the authored start lines among `lines[..n]`, in order. */
  function RecordsUpTo(m: string -> Option<Groups>, lines: seq<string>, n: nat): seq<Record>
    requires n <= |lines|
  {
    if n == 0 then []
    else RecordsUpTo(m, lines, n - 1)
         + (if IsAuthored(m, lines[n - 1]) then [RecordAt(m, lines, n - 1)] else [])
  }

  /** What the line loop produces from already stripped lines. */
  function Records(m: string -> Option<Groups>, lines: seq<string>): seq<Record>
  {
    RecordsUpTo(m, lines, |lines|)
  }

  lemma {:induction false} RecordsUpToSkip(m: string -> Option<Groups>, lines: seq<string>, a: nat, b: nat)
    requires a <= b <= |lines| && NoStartIn(m, lines, a, b)
    ensures RecordsUpTo(m, lines, b) == RecordsUpTo(m, lines, a)
    decreases b
  {
    if a < b {
      RecordsUpToSkip(m, lines, a, b - 1);
    }
  }

  lemma {:induction false} NextStartAt(m: string -> Option<Groups>, lines: seq<string>, j: nat, e: nat)
    requires j <= e <= |lines| && NoStartIn(m, lines, j, e)
    requires e < |lines| ==> IsStart(m, lines[e])
    ensures NextStart(m, lines, j) == e
    decreases e - j
  {
    if j < e {
      NextStartAt(m, lines, j + 1, e);
    }
  }

  /** Closing the message opened at `p` when the next start line (or the end) is `k`. */
  lemma Flush(m: string -> Option<Groups>, lines: seq<string>, p: nat, k: nat)
    requires p < k <= |lines| && IsStart(m, lines[p]) && NoStartIn(m, lines, p + 1, k)
    requires k < |lines| ==> IsStart(m, lines[k])
    ensures RecordsUpTo(m, lines, k)
         == RecordsUpTo(m, lines, p) + (if IsAuthored(m, lines[p]) then [RecordAt(m, lines, p)] else [])
    ensures RecordAt(m, lines, p).body == JoinSpace([m(lines[p]).value.body] + lines[p + 1..k])
  {
    NextStartAt(m, lines, p + 1, k);
    RecordsUpToSkip(m, lines, p + 1, k);
  }

  /** The state of the line loop after `k` lines: `p` is the last start line so far. */
  ghost predicate LoopState(m: string -> Option<Groups>, sl: seq<string>, k: nat, p: int,
                            data: seq<Record>, date: string, time: string, author: string,
                            buffer: seq<string>)
    requires k <= |sl|
  {
    && -1 <= p < k
    && (p == -1 ==> author == "" && data == [] && NoStartIn(m, sl, 0, k))
    && (p >= 0 ==>
          && IsStart(m, sl[p]) && NoStartIn(m, sl, p + 1, k)
          && Groups(date, time, author, m(sl[p]).value.body) == m(sl[p]).value
          && data == RecordsUpTo(m, sl, p)
          && (author != "" ==> buffer == [m(sl[p]).value.body] + sl[p + 1..k]))
  }

  /** The record the loop flushes from its current variables. */
  function Flushed(data: seq<Record>, date: string, time: string, author: string, buffer: seq<string>): seq<Record>
  {
    if author != "" then data + [Record(NormalizeDate(date), time, author, JoinSpace(buffer))] else data
  }

  lemma StartStep(m: string -> Option<Groups>, sl: seq<string>, k: nat, p: int, data: seq<Record>,
                  date: string, time: string, author: string, buffer: seq<string>)
    requires k < |sl| && IsStart(m, sl[k])
    requires LoopState(m, sl, k, p, data, date, time, author, buffer)
    ensures var g := m(sl[k]).value;
      LoopState(m, sl, k + 1, k, Flushed(data, date, time, author, buffer), g.date, g.time, g.author, [g.body])
  {
    if p >= 0 {
      Flush(m, sl, p, k);
    } else {
      RecordsUpToSkip(m, sl, 0, k);
    }
  }

  lemma OtherStep(m: string -> Option<Groups>, sl: seq<string>, k: nat, p: int, data: seq<Record>,
                  date: string, time: string, author: string, buffer: seq<string>)
    requires k < |sl| && !IsStart(m, sl[k])
    requires LoopState(m, sl, k, p, data, date, time, author, buffer)
    ensures LoopState(m, sl, k + 1, p, data, date, time, author,
                      if author != "" then buffer + [sl[k]] else buffer)
  {
    if p >= 0 && author != "" {
      assert sl[p + 1..k + 1] == sl[p + 1..k] + [sl[k]];
      assert buffer + [sl[k]] == [m(sl[p]).value.body] + sl[p + 1..k + 1];
    }
  }

  lemma FinalStep(m: string -> Option<Groups>, sl: seq<string>, p: int, data: seq<Record>,
                  date: string, time: string, author: string, buffer: seq<string>)
    requires LoopState(m, sl, |sl|, p, data, date, time, author, buffer)
    ensures Flushed(data, date, time, author, buffer) == Records(m, sl)
  {
    if p >= 0 {
      Flush(m, sl, p, |sl|);
    } else {
      RecordsUpToSkip(m, sl, 0, |sl|);
    }
  }

  /** The `for line in lines` loop of `parse_chat_content`: a start line flushes the
      buffered message if there is an author and opens a new buffer; any other line
      joins the buffer while there is an author and is dropped otherwise; the last
      buffer is flushed at the end. */
  method ParseLines(u: Unicode, lines: seq<string>, m: string -> Option<Groups>) returns (data: seq<Record>)
    ensures data == Records(m, StripAll(u, lines))
  {
    ghost var sl := StripAll(u, lines);
    data := [];
    var buffer: seq<string> := [];
    var date, time, author := "", "", "";
    ghost var p: int := -1;
    for k := 0 to |lines|
      invariant LoopState(m, sl, k, p, data, date, time, author, buffer)
    {
      var line := Strip(u, lines[k]);
      assert line == sl[k];
      var groups := m(line);
      if groups.Some? {
        StartStep(m, sl, k, p, data, date, time, author, buffer);
        if author != "" {
          data := data + [Record(NormalizeDate(date), time, author, JoinSpace(buffer))];
        }
        date, time, author := groups.value.date, groups.value.time, groups.value.author;
        buffer := [groups.value.body];
        p := k;
      } else {
        OtherStep(m, sl, k, p, data, date, time, author, buffer);
        if author != "" {
          buffer := buffer + [line];
        }
      }
    }
    FinalStep(m, sl, p, data, date, time, author, buffer);
    if author != "" {
      data := data + [Record(NormalizeDate(date), time, author, JoinSpace(buffer))];
    }
  }

  // ---------------------------------------------------------------- record-level facts

  lemma {:induction false} NextStartShift(m: string -> Option<Groups>, l: string, rest: seq<string>, j: nat)
    requires j <= |rest|
    ensures NextStart(m, [l] + rest, j + 1) == NextStart(m, rest, j) + 1
    decreases |rest| - j
  {
    var lines := [l] + rest;
    assert lines[j + 1..] == rest[j..];
    if j < |rest| && !IsStart(m, rest[j]) {
      assert lines[j + 1] == rest[j];
      NextStartShift(m, l, rest, j + 1);
    }
  }

  lemma {:induction false} RecordsUpToShift(m: string -> Option<Groups>, l: string, rest: seq<string>, n: nat)
    requires n <= |rest| && !IsStart(m, l)
    ensures RecordsUpTo(m, [l] + rest, n + 1) == RecordsUpTo(m, rest, n)
  {
    var lines := [l] + rest;
    if n > 0 {
      RecordsUpToShift(m, l, rest, n - 1);
      assert lines[n] == rest[n - 1];
      if IsStart(m, rest[n - 1]) {
        NextStartShift(m, l, rest, n);
        assert lines[n + 1..NextStart(m, lines, n + 1)] == rest[n..NextStart(m, rest, n)];
      }
    }
  }

  /** A line that starts no message before any start line is discarded. */
  lemma LeadingLineDiscarded(m: string -> Option<Groups>, l: string, rest: seq<string>)
    requires !IsStart(m, l)
    ensures Records(m, [l] + rest) == Records(m, rest)
  {
    RecordsUpToShift(m, l, rest, |rest|);
  }

  /** Record `r` is the one some authored start line among `lines[..n]` opens. */
  ghost predicate OpenedBefore(m: string -> Option<Groups>, lines: seq<string>, n: nat, r: Record)
    requires n <= |lines|
  {
    exists i :: 0 <= i < n && IsAuthored(m, lines[i]) && r == RecordAt(m, lines, i)
  }

  /** Every record comes from an authored start line, and with no authored start line
      there is no record. */
  lemma {:induction false} RecordsFromStarts(m: string -> Option<Groups>, lines: seq<string>, n: nat)
    requires n <= |lines|
    ensures forall j :: 0 <= j < |RecordsUpTo(m, lines, n)| ==> OpenedBefore(m, lines, n, RecordsUpTo(m, lines, n)[j])
    ensures (forall i :: 0 <= i < n ==> !IsAuthored(m, lines[i])) ==> RecordsUpTo(m, lines, n) == []
    ensures |RecordsUpTo(m, lines, n)| <= n
  {
    if n > 0 {
      RecordsFromStarts(m, lines, n - 1);
      var prev := RecordsUpTo(m, lines, n - 1);
      var cur := RecordsUpTo(m, lines, n);
      forall j | 0 <= j < |cur| ensures OpenedBefore(m, lines, n, cur[j]) {
        if j < |prev| {
          assert OpenedBefore(m, lines, n - 1, prev[j]);
          var i :| 0 <= i < n - 1 && IsAuthored(m, lines[i]) && prev[j] == RecordAt(m, lines, i);
          assert cur[j] == prev[j];
        } else {
          assert cur[j] == RecordAt(m, lines, n - 1);
        }
      }
      if forall i :: 0 <= i < n ==> !IsAuthored(m, lines[i]) {
        assert !IsAuthored(m, lines[n - 1]);
        assert cur == prev;
      }
    }
  }

  /** A message-start line followed by a continuation line yields one record whose body is
      the two pieces joined by a space. */
  lemma ContinuationJoined(m: string -> Option<Groups>, first: string, second: string, g: Groups)
    requires m(first) == Some(g) && g.author != "" && m(second).None?
    ensures Records(m, [first, second]) == [Record(NormalizeDate(g.date), g.time, g.author, g.body + " " + second)]
  {
    var lines := [first, second];
    NextStartAt(m, lines, 1, 2);
    assert lines[1..2] == [second];
    assert [g.body] + lines[1..2] == [g.body, second];
    assert JoinSpace([g.body, second]) == g.body + " " + second by {
      assert [g.body, second][..1] == [g.body];
    }
    assert RecordsUpTo(m, lines, 1) == [RecordAt(m, lines, 0)];
    assert RecordsUpTo(m, lines, 2) == RecordsUpTo(m, lines, 1);
  }

  // ---------------------------------------------------------------- timestamps

  /** What `pd.to_datetime` reads for a row: `Date + ' ' + Time`. */
  function StampText(r: Record): string
  {
    r.date + " " + r.time
  }

  /** How many rows parse under one day-first setting. */
  function ParsedCount(recs: seq<Record>, parse: (bool, string) -> Option<Stamp>, dayFirst: bool): nat
  {
    if recs == [] then 0
    else ParsedCount(recs[..|recs| - 1], parse, dayFirst)
         + (if parse(dayFirst, StampText(recs[|recs| - 1])).Some? then 1 else 0)
  }

  /** The day-first retry: day-first parsing is kept when more than half of the rows
      parse that way, and month-first parsing is used otherwise. */
  function ChooseDayFirst(recs: seq<Record>, parse: (bool, string) -> Option<Stamp>): bool
  {
    2 * ParsedCount(recs, parse, true) > |recs|
  }

  /** The rows whose timestamp parses under `dayFirst`, each with that timestamp. */
  function KeepParsed(recs: seq<Record>, parse: (bool, string) -> Option<Stamp>, dayFirst: bool): seq<Message>
  {
    if recs == [] then []
    else
      var r := recs[|recs| - 1];
      var t := parse(dayFirst, StampText(r));
      KeepParsed(recs[..|recs| - 1], parse, dayFirst)
      + (if t.Some? then [Message(r.date, r.time, r.author, r.body, t.value)] else [])
  }

  /** The DateTime column and `dropna(subset=['DateTime'])`. */
  function Timestamped(recs: seq<Record>, parse: (bool, string) -> Option<Stamp>): seq<Message>
  {
    KeepParsed(recs, parse, ChooseDayFirst(recs, parse))
  }

  /** A message without its timestamp. */
  function Unstamped(msg: Message): Record
  {
    Record(msg.date, msg.time, msg.author, msg.body)
  }

  function UnstampAll(msgs: seq<Message>): (r: seq<Record>)
    ensures |r| == |msgs|
    ensures forall i :: 0 <= i < |msgs| ==> r[i] == Unstamped(msgs[i])
  {
    seq(|msgs|, i requires 0 <= i < |msgs| => Unstamped(msgs[i]))
  }

  lemma {:induction false} SubsequenceAppend<T>(a: seq<T>, b: seq<T>, x: T)
    requires IsSubsequence(a, b)
    ensures IsSubsequence(a, b + [x]) && IsSubsequence(a + [x], b + [x])
    decreases |b|
  {
    if a != [] && b != [] {
      assert (b + [x])[1..] == b[1..] + [x];
      assert (a + [x])[1..] == a[1..] + [x];
      if a[0] == b[0] {
        SubsequenceAppend(a[1..], b[1..], x);
      } else {
        SubsequenceAppend(a, b[1..], x);
      }
    } else if a == [] {
      assert a + [x] == [x];
      assert [x][1..] == [];
      SubsequenceEmpty(b + [x]);
      SubsequenceEmpty(b);
      SubsequenceLast(b, x);
    }
  }

  lemma {:induction false} SubsequenceEmpty<T>(b: seq<T>)
    ensures IsSubsequence([], b)
  {
  }

  lemma {:induction false} SubsequenceLast<T>(b: seq<T>, x: T)
    ensures IsSubsequence([x], b + [x])
    decreases |b|
  {
    if b != [] {
      if b[0] != x {
        assert (b + [x])[1..] == b[1..] + [x];
        SubsequenceLast(b[1..], x);
      } else {
        assert [x][1..] == [];
      }
    } else {
      assert [x][1..] == [];
    }
  }

  /** The kept rows are the records whose timestamp parses under the single chosen
      setting, in order and unchanged, each carrying that parse result; a row that fails
      is dropped and never parsed the other way. */
  lemma {:induction false} KeepParsedProps(recs: seq<Record>, parse: (bool, string) -> Option<Stamp>, dayFirst: bool)
    ensures var kept := KeepParsed(recs, parse, dayFirst);
      && |kept| == ParsedCount(recs, parse, dayFirst)
      && IsSubsequence(UnstampAll(kept), recs)
      && (forall i :: 0 <= i < |kept| ==> parse(dayFirst, StampText(Unstamped(kept[i]))) == Some(kept[i].stamp))
  {
    if recs != [] {
      var init := recs[..|recs| - 1];
      var r := recs[|recs| - 1];
      KeepParsedProps(init, parse, dayFirst);
      var t := parse(dayFirst, StampText(r));
      var prev := KeepParsed(init, parse, dayFirst);
      assert recs == init + [r];
      if t.Some? {
        var msg := Message(r.date, r.time, r.author, r.body, t.value);
        assert UnstampAll(prev + [msg]) == UnstampAll(prev) + [r];
        SubsequenceAppend(UnstampAll(prev), init, r);
      } else {
        assert KeepParsed(recs, parse, dayFirst) == prev;
        SubsequenceAppend(UnstampAll(prev), init, r);
        assert IsSubsequence(UnstampAll(prev), recs);
      }
    } else {
      SubsequenceEmpty(recs);
    }
  }

  /** When day-first parsing is kept, more than half of the rows survive. */
  lemma TimestampedMajority(recs: seq<Record>, parse: (bool, string) -> Option<Stamp>)
    requires ChooseDayFirst(recs, parse)
    ensures 2 * |Timestamped(recs, parse)| > |recs|
  {
    KeepParsedProps(recs, parse, true);
  }

  // ---------------------------------------------------------------- parse_chat_content

  /** The chosen grammar as a line matcher. */
  function Matcher<P>(matches: (P, string) -> Option<Groups>, p: P): string -> Option<Groups>
  {
    line => matches(p, line)
  }

  /** `parse_chat_content`: split the content into lines, select a grammar, rebuild the
      messages and keep those whose timestamp parses. */
  method ParseChatContent<P>(u: Unicode, content: string, patterns: seq<P>,
                             matches: (P, string) -> Option<Groups>,
                             parse: (bool, string) -> Option<Stamp>) returns (df: seq<Message>)
    requires |patterns| > 0
    ensures content == [] ==> df == []
    ensures var lines := SplitLines(content);
      exists k :: IsBestPattern(u, lines, patterns, matches, k)
        && df == Timestamped(Records(Matcher(matches, patterns[k]), StripAll(u, lines)), parse)
  {
    var lines := SplitLines(content);
    SplitLinesProps(content);
    if lines == [] {
      assert IsBestPattern(u, lines, patterns, matches, 0);
      return [];
    }
    var best := DetectBestPattern(u, lines, patterns, matches);
    var data := ParseLines(u, lines, Matcher(matches, best));
    if data == [] {
      return [];
    }
    df := Timestamped(data, parse);
  }
}
