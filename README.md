# VibeCheck chat analytics, modelled in Dafny

VibeCheck reads an exported WhatsApp transcript and reports on it. This project models
the core of the program and proves properties of that model. The core has three parts.

- **The parser** (`src/parser.py`). It picks the message-start grammar that
  recognises the most of the first 100 lines. It rebuilds multi-line messages by
  joining continuation lines with a space. It normalises date separators to `/`. It
  gives each row a timestamp, re-parsing month-first when day-first parsing fails for
  half of the rows or more, and drops the rows that still have no timestamp.
- **The text helpers** (`src/utils.py`). These are `clean_name`,
  `is_media_message`, `has_link`, `extract_emojis` and `extract_links`.
- **The analyses of `ChatAnalyzer`** (`src/analyzers.py`). These are:
  - the summary, message volume and leaderboard;
  - response times, hourly and weekly activity, message length and links;
  - conversation starters and enders, monologues and achievement badges;
  - the user-versus-group comparison and word frequency.

The parsed chat is a sequence of `Message` values. Each has its raw date and time
text, its author, its text and a timestamp in whole seconds. Each analysis is a
function of that sequence.

Some of the source's algorithms work step by step:
- pattern detection;
- the parser's line loop;
- the run scan in `detect_monologues` and its aggregation by author.

Those are Dafny methods with loops. Each method is proved equal to a specification
function, and the lemmas about that function state what the source promises.

Some of the program's behaviour comes from libraries or other external code. The
model takes it as parameters:
- **The grammars.** The message-start regular expressions are values of a type
  parameter, and a `matches` function says which groups one of them captures from a
  line.
- **Date parsing.** `pandas.to_datetime` is a function from the day-first flag and
  the text to an optional timestamp.
- **Unicode facts.** The word and whitespace classes of regular expressions, the
  `emoji` table and `str.lower` form one `Unicode` value. `AsciiConsistent` states
  what they must agree on with ASCII.
- **Sentiment.** TextBlob's polarity is a function from text to a real number.

A NaN mean is `None`. A crash the source can raise is an error value.

Modules: `Wrappers` (Option/Result), `Seqs`, `Sorting` (a stable insertion sort),
`Tally` (`value_counts`), `TextUtils`, `Chat`, `Parser`, `Frame` (the columns and
selections the analyses share), `Activity`, `Overview`, `Conversation`, `Content`,
`Monologues`, `Achievements`, `Comparison`.

## Operations

Each operation of the source, the member that models it, and where its contract is
stated (the rows below give the details):

- `detect_best_pattern`: `Parser.DetectBestPattern` (its own ensures, with
  `BestPatternSampleOnly` and `BestPatternUnique`).
- `normalize_date`: `Parser.NormalizeDate` (`NormalizeDateProps`).
- `parse_chat_content`: `Parser.ParseChatContent`, its line loop `Parser.ParseLines`
  (both their own ensures, with `Flush`, `LeadingLineDiscarded`, `ContinuationJoined`,
  `RecordsFromStarts`, `KeepParsedProps` and `TimestampedMajority`).
- `clean_name`: `TextUtils.CleanName` (`CleanNameCases`, `CleanedProps`).
- `is_media_message`: `TextUtils.IsMediaMessage` (`MediaIgnoresCase`, `MediaPlaceholder`).
- `has_link` and `extract_links`: `TextUtils.HasLink` and `TextUtils.ExtractLinks`
  (`UrlEnd`, `ExtractLinksProps`, `LinksImplyHasLink`).
- `extract_emojis`: `TextUtils.ExtractEmojis` (`ExtractEmojisProps`).
- `get_summary`: `Overview.GetSummary` (`SummarySpan`, `SummaryTop`, `SummaryPeaks`).
- `analyze_volume`: `Overview.AnalyzeVolume` (`VolumeProps`).
- `get_leaderboard`: `Overview.GetLeaderboard` (`LeaderboardProps`, `LeaderboardTop`).
- `analyze_response_time`: `Conversation.AnalyzeResponseTime` (`ResponseTimeEmpty`,
  `ResponseTimeEntries`, `ResponseTimeOrder`).
- `analyze_hourly_activity` and `analyze_weekly_activity`:
  `Activity.AnalyzeHourlyActivity` and `Activity.AnalyzeWeeklyActivity` (`HourlyProps`,
  `WeeklyProps`).
- `analyze_message_length`: `Content.AnalyzeMessageLength` (`MessageLengthMeans`,
  `LongestMessage`).
- `analyze_links`: `Content.AnalyzeLinks` (`LinksEntries`, `LinksTopSharer`).
- `analyze_conversation_roles`: `Conversation.AnalyzeConversationRoles`
  (`EndersMatchStarters`, `StartersBalanceEnders`, `RolesProps`).
- `detect_monologues`: `Monologues.Monologues` and the method
  `Monologues.DetectMonologues` (`RecordRuns`, `SumTotals`, `RankedSelect`,
  `MonologuesProps`).
- `calculate_achievements`: `Achievements.CalculateAchievements`
  (`AchievementsFailure`, `AchievementsBadges`, `AchievementsNames`,
  `AchievementsListed`).
- `compare_user_to_group`: `Comparison.CompareUserToGroup` (`CompareMessages`,
  `CompareResponse`, `ComparePositivity`, `CompareEmojis`).
- `analyze_word_frequency`: `Content.AnalyzeWordFrequency` (`ChatWordsSound`,
  `ChatWordsComplete`, `ChatWordsCount`, `WordFrequencyProps`, `WordFrequencyTop`).

## Model

| member | source | states |
|---|---|---|
| Seqs.PyPrefix | src/parser.py:55 | `s[:n]` and `head(n)`: the result is a prefix of `s`, of length `min(n, len)` for `n >= 0` and `len + n` (at least 0) for negative `n` |
| Seqs.FirstArgMax | src/analyzers.py:365 | `idxmax`: the position holds the largest key, and every earlier position a strictly smaller one |
| Seqs.FirstArgMin | src/analyzers.py:610 | `idxmin`: the position holds the smallest key, and every earlier position a strictly larger one |
| Sorting.SortBySorted | src/analyzers.py:546 | sorting by a key puts the keys in ascending order |
| Sorting.SortByPermutation | src/analyzers.py:546 | sorting keeps exactly the same elements (same multiset) |
| Sorting.SortByStable | src/analyzers.py:546 | `sorted` is stable: the elements sharing a key keep their original order |
| Tally.OccurrencesProps | src/analyzers.py:101 | the per-value counts have distinct keys and positive counts; each count is the number of occurrences; the counts add up to the length; the keys are the values present |
| Tally.ValueCountsProps | src/analyzers.py:101 | `value_counts()`: distinct keys, each with its number of occurrences (at least 1), largest count first, covering every value, counts adding up to the length |
| Tally.ValueCountsTop | src/analyzers.py:58-59 | `value_counts().index[0]` of a non-empty column occurs in it, and no value occurs more often |
| Tally.ValueCountsCovers | src/analyzers.py:101 | a value occurs in the column exactly when it has an entry |
| Tally.ValueCountsHead | src/analyzers.py:101 | `value_counts().head(limit)`: at most `limit` distinct values with their counts, largest first; for `limit >= 1` empty exactly when the column is; the first value occurs most often; it is the top-`limit` selection (`TopSelection`): `min(limit, #values)` entries, and no value left out occurs more often than a kept one; every value when `limit` allows |
| Tally.SortedHead | src/analyzers.py:546 | sorting a table with distinct keys by descending count and keeping the first `k` entries selects the `k` largest: distinct keys, counts descending, `min(k, #keys)` entries (negative `k` as in Python slicing), no key left out with a larger count than a kept one |
| Tally.ValueCountsSelect | src/analyzers.py:101 | `value_counts().head(limit)` is the top-`limit` selection of the column's values by number of occurrences, and holds every value when `limit` is at least their number |
| TextUtils.CleanName | src/utils.py:26-29 | `clean_name` never returns an empty string |
| TextUtils.CleanNameCases | src/utils.py:26-29 | the three branches: truncated to `max_length` characters plus `..` when longer, the cleaned text when it fits and is non-empty, `Unknown` when empty; the length bound that follows |
| TextUtils.CleanedProps | src/utils.py:28 | the cleaned name keeps only word characters, whitespace and `-`, in their original order, and neither starts nor ends with whitespace |
| TextUtils.StripProps | src/parser.py:108 | `strip()` yields a contiguous slice with only whitespace cut off at both ends, and it neither starts nor ends with whitespace |
| TextUtils.MediaIgnoresCase | src/utils.py:74-75 | a media keyword in any mix of ASCII capitals makes `is_media_message` true |
| TextUtils.MediaPlaceholder | src/utils.py:74-75 | the export's `<Media omitted>` placeholder is a media message and ordinary text is not |
| TextUtils.ExtractEmojisProps | src/utils.py:61 | `extract_emojis` returns only emoji, each emoji as often as in the text, in text order |
| TextUtils.UrlEnd | src/utils.py:91 | a URL extends over every character outside `[\s<>"{}\|\\^`\[\]]` and stops at the first one inside it |
| TextUtils.ExtractLinksProps | src/utils.py:91-92 | every link found starts with `http://` or `https://`, has a character after the scheme, has no whitespace and occurs in the message |
| TextUtils.LinksImplyHasLink | src/utils.py:91-105 | a message with an extractable link passes `has_link` |
| Chat.Hour | src/analyzers.py:39 | the hour of a timestamp is in `0..23` |
| Chat.Weekday | src/analyzers.py:40 | the weekday is in `0..6`, Monday first |
| Parser.SplitLinesProps | src/parser.py:95-98 | `splitlines()` of empty content is empty, otherwise non-empty, and no line holds a line break |
| Parser.NormalizeDateProps | src/parser.py:66-79 | every `-` and `.` becomes `/`; every other character and the length are unchanged |
| Parser.DetectBestPattern | src/parser.py:37-63 | the loop returns the earliest grammar with the highest count of stripped lines it matches among the first 100, and the first grammar when none matches |
| Parser.BestPatternSampleOnly | src/parser.py:55-58 | whatever follows the first 100 lines does not change the choice |
| Parser.BestPatternUnique | src/parser.py:59-61 | the strict `>` makes the winning grammar unique |
| Parser.StripAllProps | src/parser.py:108 | each line is stripped before matching: the result is a slice of the line with only whitespace cut from either end, and it neither starts nor ends with whitespace |
| Parser.ParseLines | src/parser.py:103-120 | the line loop yields exactly the records of the line sequence: one per authored start line, with the continuation lines joined |
| Parser.Flush | src/parser.py:110-120 | a record is emitted when the next start line (or the end) arrives, with date normalised and its opening body and following lines joined by spaces |
| Parser.LeadingLineDiscarded | src/parser.py:115-117 | lines before the first start line are dropped |
| Parser.ContinuationJoined | src/parser.py:112-120 | an authored start line followed by a non-start line gives one record whose body is both, joined by a space |
| Parser.RecordsFromStarts | src/parser.py:107-120 | every record comes from an authored start line before it; no authored start line means no records; there are no more records than lines |
| Parser.KeepParsedProps | src/parser.py:131-147 | the kept rows are exactly the rows whose timestamp parses, in order, each carrying its parsed timestamp |
| Parser.TimestampedMajority | src/parser.py:129-138 | when day-first parsing is kept, more than half of the rows survive |
| Parser.ParseChatContent | src/parser.py:82-148 | empty content gives no rows; otherwise the rows are the records of the stripped lines under the best grammar, timestamped by the day-first retry with unparsable rows dropped |
| Frame.CleanAuthorsProps | src/analyzers.py:34 | the `CleanAuthor` column gives every row a display name: never empty, at most 15 characters plus `..`, and an author name that is already clean and at most 15 characters long is shown unchanged |
| Frame.ByTimeProps | src/analyzers.py:183 | `sort_values('DateTime')` orders timestamps ascending, keeps every row, and keeps rows with equal timestamps in their original order |
| Frame.RepliesProps | src/analyzers.py:183-192 | a reply is a message whose raw author differs from the previous message's, sent strictly later and less than 12 hours later; nothing else is a reply |
| Frame.RepliesAmongProps | src/analyzers.py:198 | `isin(top_authors)` keeps exactly the replies of the listed names |
| Frame.TopAuthorsProps | src/analyzers.py:197 | the top authors are at most `limit` distinct cleaned names, each with at least as many messages as any name left out, and all names when `limit` allows |
| Frame.TopAuthorsHaveRows | src/analyzers.py:404-405 | every top author has at least one message |
| Frame.RowsOfCount | src/analyzers.py:649 | the rows of a cleaned name are as many as its occurrences in the column and all have that name |
| Frame.Percent | src/analyzers.py:81 | `count / total * 100` times `total` is `100 * count`, and it lies in `0..100` when `count <= total` |
| Frame.MeansForProps | src/analyzers.py:361 | one mean per listed name with rows, equal to the mean over that name's rows |
| Frame.SumsForProps | src/analyzers.py:405 | one sum per listed name with rows, equal to the sum over that name's rows |
| Frame.AscendingProps | src/analyzers.py:200 | `sort_values()` puts values in ascending order and keeps the entries |
| Frame.DescendingProps | src/analyzers.py:362 | `sort_values(ascending=False)` puts values in descending order and keeps the entries |
| Activity.BucketProps | src/analyzers.py:229-233 | one slot per bucket; a slot is non-zero exactly when its value occurs; when every value names a bucket, the slots add up to the number of values |
| Activity.BucketSum | src/analyzers.py:229-233 | the slots add up to the number of messages |
| Activity.AnalyzeHourlyActivity | src/analyzers.py:229-245 | 24 slots and a peak hour in `0..23` |
| Activity.HourlyProps | src/analyzers.py:219-248 | each hour's slot counts its messages; the slots add up to all messages; the peak hour is the first hour with the largest count |
| Activity.AnalyzeWeeklyActivity | src/analyzers.py:260-273 | seven entries named Monday to Sunday in that order |
| Activity.WeeklyProps | src/analyzers.py:250-281 | each day's entry counts its messages; weekend plus weekday is all messages; the weekend is Saturday plus Sunday; the busiest day is the first day with the largest count |
| Overview.MinStamp | src/analyzers.py:54 | the start is the earliest timestamp |
| Overview.MaxStamp | src/analyzers.py:55 | the end is the latest timestamp |
| Overview.GetSummary | src/analyzers.py:43-86 | the summary fails exactly on an empty chat |
| Overview.SummarySpan | src/analyzers.py:53-77 | start and end bracket every message and are attained; the message total; the day count is the whole days elapsed, and exactly 1 for a span under a day; the participants are the distinct raw authors |
| Overview.SummaryTop | src/analyzers.py:58-82 | the top contributor is a raw author with the most messages and its count; the percentage is its share |
| Overview.SummaryPeaks | src/analyzers.py:60-61 | the peak hour and the busiest day occur in the chat and none occurs more often |
| Overview.VolumeProps | src/analyzers.py:88-119 | at most `limit` distinct names with their counts, largest first; the listed names are the `limit` most active (none left out has more messages than a listed one) and all names when `limit` allows; the total; the top contributor exists iff the data does, and it has the most messages |
| Overview.LeaderboardProps | src/analyzers.py:427-453 | ranks 1, 2, …; each row is a raw author (shown cleaned) with its count and share, counts descending; empty iff the chat is (for `limit >= 1`) |
| Overview.LeaderboardTop | src/analyzers.py:440-452 | the board shows, place by place, the cleaned names and counts of a top-`limit` selection of distinct raw authors: nobody left off the board has more messages than anybody on it |
| Conversation.ReplyMeansProps | src/analyzers.py:200 | one mean reply time per name with replies, equal to the mean of that name's gaps |
| Conversation.ResponseTimeEmpty | src/analyzers.py:194-195 | no replies: no data, no fastest responder, no average; no top author replying: no data and a NaN average |
| Conversation.ResponseTimeEntries | src/analyzers.py:197-213 | every entry is a top author with its mean reply time, and every top author who replied has an entry |
| Conversation.ResponseTimeOrder | src/analyzers.py:200-215 | entries ascend; the fastest responder is present iff there is data, and holds the smallest mean; the average is over the top authors' replies |
| Conversation.EndersMatchStarters | src/analyzers.py:469-475 | a message ends a conversation exactly when the next one starts one; the first message never starts one and the last never ends one; so up to any point the enders number the starters one message further on |
| Conversation.StartersBalanceEnders | src/analyzers.py:465-476 | the chat has as many starters as enders |
| Conversation.RolesProps | src/analyzers.py:455-498 | at most ten distinct starters and ten distinct enders with their counts, largest first, each the top-ten selection (no name left out starts or ends more conversations than a listed one); the top starter (ender) is the first listed one, present iff some message starts (ends) a conversation |
| Conversation.TopCounts | src/analyzers.py:470-477 | `value_counts().head(10)` of a list of names: the top-ten selection by count, largest first, with a first name exactly when the list is not empty |
| Content.LinkFlagSum | src/analyzers.py:402-405 | summing the `has_link` flags counts the link messages |
| Content.LinksEntries | src/analyzers.py:401-422 | every top author has an entry with its number of link messages, entries descending; the total counts every link message |
| Content.LinksTopSharer | src/analyzers.py:410-423 | a top sharer exists iff some top author sent a link, and it then is a top author with the most link messages |
| Content.Preview | src/analyzers.py:383 | text of up to 200 characters is shown whole; longer text shows its first 200 characters followed by `...` |
| Content.AnalyzeMessageLength | src/analyzers.py:360-386 | no result exactly when the chat is empty (`idxmax` fails) |
| Content.MessageLengthMeans | src/analyzers.py:360-362 | every top author has an entry with its mean message length, entries descending |
| Content.LongestMessage | src/analyzers.py:365-383 | the longest message is the first one of maximal length, reported with its cleaned author and its preview |
| Content.RunEnd | src/analyzers.py:720 | a word run extends over word characters and stops at the first non-word character |
| Content.WordsFromSound | src/analyzers.py:720 | every word `\b\w{3,}\b` finds is a maximal run of at least 3 word characters |
| Content.WordsFromComplete | src/analyzers.py:720 | every maximal run of at least 3 word characters is found |
| Content.ShortStopWordsInert | src/analyzers.py:717-722 | stop words shorter than 3 characters never matter |
| Content.ChatWordsSound | src/analyzers.py:717-722 | every counted word is a maximal run of at least 3 word characters of the lower-cased joined text, and not a stop word |
| Content.ChatWordsComplete | src/analyzers.py:719-722 | every such run that is not a stop word is counted |
| Content.ChatWordsCount | src/analyzers.py:722 | the stop-word filter removes exactly the stop words' occurrences |
| Content.WordFrequencyProps | src/analyzers.py:723 | `most_common(limit)`: nothing for `limit <= 0`, at most `limit` distinct words with their counts, largest first; for `limit >= 1` the `limit` most common counted words (none left out is more frequent than a listed one) and empty exactly when the chat has no counted word |
| Content.WordFrequencyTop | src/analyzers.py:723 | for `limit >= 1`, the result is the top-`limit` selection of the counted words and is empty exactly when there are none |
| Monologues.RunsExpand | src/analyzers.py:519-529 | the runs of consecutive same-author messages, expanded again, give back the author sequence |
| Monologues.RunsMaximal | src/analyzers.py:519-529 | adjacent runs have different authors and every run is non-empty |
| Monologues.RunsExample | src/analyzers.py:519-544 | for distinct authors `a` and `b`, `a a a b a a` gives runs `a:3`, `b:1`, `a:2`; with a minimum of three only the first run is recorded, so `a` totals 3, not 5 |
| Monologues.RecordedProps | src/analyzers.py:523-535 | exactly the runs of at least `min_consecutive` messages are recorded, with their cleaned author and length |
| Monologues.NothingRecorded | src/analyzers.py:537-538 | nothing is recorded iff `min_consecutive > 0` and every run is shorter |
| Monologues.RecordRuns | src/analyzers.py:513-535 | the scan loop records the initial `None` entry when `min_consecutive <= 0`, then each long enough run in order |
| Monologues.ScanStep | src/analyzers.py:520-529 | one loop step extends the current run or closes it, recording it when long enough |
| Monologues.AddProps | src/analyzers.py:544 | adding to the totals raises one key's total and keeps keys distinct |
| Monologues.TotalsProps | src/analyzers.py:541-544 | the totals have distinct keys, each with the sum of its recorded counts |
| Monologues.SumTotals | src/analyzers.py:541-544 | the aggregation loop computes those totals |
| Monologues.RankedProps | src/analyzers.py:546 | at most ten distinct names with their totals, largest first |
| Monologues.RankedSelect | src/analyzers.py:546 | `sorted(...)[:10]` is the top-ten selection of the totals: no name left out has a larger total than a ranked one, and with ten names or fewer all are ranked |
| Monologues.RankedTop | src/analyzers.py:546-560 | the first name has the largest total |
| Monologues.DetectMonologues | src/analyzers.py:500-562 | the method computes the report of the specification |
| Monologues.MonologuesProps | src/analyzers.py:500-562 | the report: at most ten distinct names with their totals, descending, the ten largest totals (every name when there are at most ten); empty when nothing was recorded; no top monologuer iff nothing was recorded, otherwise it is the first listed name and has the largest total |
| Achievements.GrantProps | src/analyzers.py:581 | `achievements.get(x, []) + [badge]` appends the badge to `x` only and adds `x` once |
| Achievements.GrantToProps | src/analyzers.py:579-581 | granting to an absent winner changes nothing |
| Achievements.AchievementsFailure | src/analyzers.py:614-628 | `IndexError` exactly on an empty chat; `NameError` exactly when there are replies but none by a top-ten author |
| Achievements.AchievementsBadges | src/analyzers.py:574-627 | on success each name appears once, and its badges are those it won, in the source's order |
| Achievements.AchievementsNames | src/analyzers.py:575-621 | on success the dictionary lists the distinct winners of the six metrics in the order of their first award |
| Achievements.AchievementsListed | src/analyzers.py:575-621 | on success a name is listed exactly when it holds at least one badge |
| Achievements.HourFiveCountsTwice | src/analyzers.py:578-584 | a message at 5 o'clock counts for both the night-owl and the early-bird window |
| Achievements.MostFrequentProps | src/analyzers.py:580 | the most frequent cleaned name exists iff there are rows, and nobody occurs more often |
| Achievements.CountWinners | src/analyzers.py:577-615 | night owl and early bird exist iff some message falls in their hour window; the chatterbox exists iff the chat is non-empty and has the most messages |
| Achievements.ExtremesProps | src/analyzers.py:597-610 | `idxmax`/`idxmin` exist iff there are entries, and name an entry with the largest/smallest value |
| Achievements.MeanWinners | src/analyzers.py:589-621 | comedian and professor exist iff the chat is non-empty, are top-ten authors, and have the highest mean emoji ratio / message length among them |
| Achievements.LightningProps | src/analyzers.py:600-611 | lightning exists iff some top-ten author replied, and has the smallest mean reply time among those who did |
| Achievements.EmojiRatioBounds | src/analyzers.py:590-592 | the emoji ratio `emoji / (length + 1)` lies in `[0, 1)` |
| Comparison.CompareUserToGroup | src/analyzers.py:644-647 | no comparison exactly when no message is by the cleaned name |
| Comparison.AuthorCount | src/analyzers.py:650 | the distinct raw authors are at least one for a non-empty chat and at most one per message |
| Comparison.CompareMessages | src/analyzers.py:649-688 | the user's count is the cleaned name's occurrences, between 1 and all; the group average is messages per distinct author; both lengths are means |
| Comparison.CompareResponse | src/analyzers.py:656-667 | no replies: both figures 0; otherwise the group figure is the mean gap, and the user's is the mean of the user's gaps, NaN iff the user never replied |
| Comparison.ComparePositivity | src/analyzers.py:669-671 | both figures are defined (the user has messages), and they are the mean polarity of the user's and of all messages, times 100; for a polarity in [-1, 1] (src/utils.py:43) both lie in [-100, 100] |
| Frame.MeanOfBounds | src/analyzers.py:669-671 | the mean of figures all in `[lo, hi]` lies in `[lo, hi]` |
| Frame.SumOfBounds | src/analyzers.py:669-671 | a sum of `n` figures in `[lo, hi]` lies in `[n * lo, n * hi]` |
| Comparison.CompareEmojis | src/analyzers.py:673-675 | the user's emoji are among all emoji, and the group figure is all emoji per distinct author |

## Left out

- Reading a file or upload (`parse_chat_file`) and decoding bytes: I/O. The model starts from the decoded text.
- The regular expressions themselves. Their matching is the `matches` parameter. The five grammars of `MESSAGE_PATTERNS` are not written out, and neither is their lazy `(.*?):` author split.
- `pandas.to_datetime` format inference. It is the `parse` parameter. `errors='coerce'` makes a failed parse `None`. The `except Exception` branch is not modelled, because coercion does not raise, so `datetime_col` is never `None`.
- `analyze_sentiment` and `analyze_emojis`: not part of this model. TextBlob's polarity is the `polarity` parameter of the comparison only.
- Floating point. Means, ratios and percentages are exact reals. Calls to `round(x, 1)` are not modelled, and neither are `int(...)` conversions of counts, which are already whole.
- The `insight` strings and the formatted labels (`peak_hour_label`, `isoformat`). Only the `NameError` raised while building the achievements insight is modelled.
- The `emojis`, `emoji_count` and `emoji_ratio` columns that `calculate_achievements` writes into the analyzer's own frame. This side effect can be seen by later calls; the model keeps the chat unchanged.
- Pandas tie orders. A `groupby` result lists its names sorted, and the model lists them in `value_counts` order. `sort_values` and `value_counts` are modelled as stable sorts, while pandas' default quicksort is not stable. Both only matter between entries with equal values.
- `str.lower()` on characters whose lower case has a different length (such as `İ`). The model lowers one character at a time.
- `get_summary` on an empty chat raises (`index[0]` on empty counts). The model returns `None`, as it does for `analyze_message_length`, whose `idxmax` raises.
- Overview.GetSummary: `messages_per_day` and the top-contributor percentage are exact quotients. No contract bounds them beyond `Percent`.
- Comparison.CompareMessages: states the group averages as quotients of the totals by the author count, not as products.
- Comparison.CompareResponse: the source's `mean() or 0` turns a mean of exactly 0 into 0, which the model does not need: every gap is positive.
