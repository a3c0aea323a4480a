/** `analyze_hourly_activity` and `analyze_weekly_activity`: zero-filled histograms of
    the hour of day and the day of week, with the first maximum as the peak. */
module Activity {
  import opened Seqs
  import opened Chat

  /** `value_counts().reindex(range(n), fill_value=0)`: how often each of `0 .. n-1`
      occurs in `vals`. */
  function BucketCounts(vals: seq<nat>, n: nat): (r: seq<nat>)
    ensures |r| == n
    ensures forall b :: 0 <= b < n ==> r[b] == multiset(vals)[b]
  {
    seq(n, b requires 0 <= b < n => multiset(vals)[b])
  }

  /** A slot is occupied exactly when its value occurs, and when every value names a
      slot, each value is counted in exactly one slot, so the slots add up to the
      number of values. */
  lemma BucketProps(vals: seq<nat>, n: nat)
    ensures |BucketCounts(vals, n)| == n
    ensures forall b :: 0 <= b < n ==> (BucketCounts(vals, n)[b] > 0 <==> b in vals)
    ensures (forall i :: 0 <= i < |vals| ==> vals[i] < n) ==> Sum(BucketCounts(vals, n)) == |vals|
  {
    if forall i :: 0 <= i < |vals| ==> vals[i] < n {
      BucketSum(vals, n);
    }
  }

  lemma {:induction false} SumUpdate(xs: seq<int>, i: nat, d: int)
    requires i < |xs|
    ensures Sum(xs[i := xs[i] + d]) == Sum(xs) + d
    decreases |xs|
  {
    var ys := xs[i := xs[i] + d];
    if i < |xs| - 1 {
      assert ys[..|ys| - 1] == xs[..|xs| - 1][i := xs[i] + d];
      SumUpdate(xs[..|xs| - 1], i, d);
    } else {
      assert ys[..|ys| - 1] == xs[..|xs| - 1];
    }
  }

  /** When every value names a bucket, the buckets add up to the number of values. */
  lemma {:induction false} BucketSum(vals: seq<nat>, n: nat)
    requires forall i :: 0 <= i < |vals| ==> vals[i] < n
    ensures Sum(BucketCounts(vals, n)) == |vals|
    decreases |vals|
  {
    if vals == [] {
      assert forall b :: 0 <= b < n ==> BucketCounts(vals, n)[b] == 0;
      ZeroSum(BucketCounts(vals, n));
    } else {
      var init := vals[..|vals| - 1];
      var v := vals[|vals| - 1];
      assert vals == init + [v];
      BucketSum(init, n);
      var before: seq<int> := BucketCounts(init, n);
      assert BucketCounts(vals, n) == before[v := before[v] + 1];
      SumUpdate(before, v, 1);
    }
  }

  lemma {:induction false} ZeroSum(xs: seq<int>)
    requires forall i :: 0 <= i < |xs| ==> xs[i] == 0
    ensures Sum(xs) == 0
  {
    if xs != [] {
      ZeroSum(xs[..|xs| - 1]);
    }
  }

  function CountKey(c: nat): real
  {
    c as real
  }

  // ---------------------------------------------------------------- hourly

  /** The `Hour` column. */
  function Hours(df: seq<Message>): (r: seq<nat>)
    ensures |r| == |df|
    ensures forall i :: 0 <= i < |df| ==> r[i] == Hour(df[i].stamp) < 24
  {
    seq(|df|, i requires 0 <= i < |df| => Hour(df[i].stamp))
  }

  datatype HourlyActivity = HourlyActivity(data: seq<nat>, peakHour: nat)

  /** `analyze_hourly_activity`: messages per hour 0 to 23, and the peak hour. */
  function AnalyzeHourlyActivity(df: seq<Message>): (r: HourlyActivity)
    ensures |r.data| == 24 && r.peakHour < 24
  {
    var data := BucketCounts(Hours(df), 24);
    HourlyActivity(data, FirstArgMax(data, CountKey))
  }

  /** Entry `h` counts the messages sent during hour `h`, the entries add up to the
      number of messages, and the peak hour is the lowest hour with the largest count. */
  lemma HourlyProps(df: seq<Message>)
    ensures var r := AnalyzeHourlyActivity(df);
      && (forall h :: 0 <= h < 24 ==> r.data[h] == multiset(Hours(df))[h])
      && Sum(r.data) == |df|
      && (forall h :: 0 <= h < 24 ==> r.data[h] <= r.data[r.peakHour])
      && (forall h :: 0 <= h < r.peakHour ==> r.data[h] < r.data[r.peakHour])
  {
    var r := AnalyzeHourlyActivity(df);
    BucketSum(Hours(df), 24);
    forall h | 0 <= h < 24 ensures r.data[h] <= r.data[r.peakHour] {
      assert CountKey(r.data[h]) <= CountKey(r.data[r.peakHour]);
    }
    forall h | 0 <= h < r.peakHour ensures r.data[h] < r.data[r.peakHour] {
      assert CountKey(r.data[h]) < CountKey(r.data[r.peakHour]);
    }
  }

  // ---------------------------------------------------------------- weekly

  /** The `Day` column, as the weekday number (0 for Monday). */
  function Weekdays(df: seq<Message>): (r: seq<nat>)
    ensures |r| == |df|
    ensures forall i :: 0 <= i < |df| ==> r[i] == Weekday(df[i].stamp) < 7
  {
    seq(|df|, i requires 0 <= i < |df| => Weekday(df[i].stamp))
  }

  datatype DayCount = DayCount(day: string, messages: nat)

  datatype WeeklyActivity = WeeklyActivity(data: seq<DayCount>, busiestDay: string, weekend: nat, weekday: nat)

  /** `analyze_weekly_activity`: messages per day Monday to Sunday, the busiest day,
      and the weekend and weekday totals. */
  function AnalyzeWeeklyActivity(df: seq<Message>): (r: WeeklyActivity)
    ensures |r.data| == 7
    ensures forall d :: 0 <= d < 7 ==> r.data[d].day == DayNames[d]
  {
    var counts := BucketCounts(Weekdays(df), 7);
    WeeklyActivity(
      seq(7, d requires 0 <= d < 7 => DayCount(DayNames[d], counts[d])),
      DayNames[FirstArgMax(counts, CountKey)],
      counts[5] + counts[6],
      counts[0] + counts[1] + counts[2] + counts[3] + counts[4])
  }

  /** Each day's entry counts the messages sent that weekday, weekend plus weekday is
      the number of messages, and the busiest day is the first day, in Monday-to-Sunday
      order, with the largest count. */
  lemma WeeklyProps(df: seq<Message>)
    ensures var r := AnalyzeWeeklyActivity(df);
      && (forall d :: 0 <= d < 7 ==> r.data[d].messages == multiset(Weekdays(df))[d])
      && r.weekend + r.weekday == |df|
      && r.weekend == r.data[5].messages + r.data[6].messages
      && (exists b :: 0 <= b < 7 && r.busiestDay == DayNames[b]
            && (forall d :: 0 <= d < 7 ==> r.data[d].messages <= r.data[b].messages)
            && (forall d :: 0 <= d < b ==> r.data[d].messages < r.data[b].messages))
  {
    WeeklyTotals(df);
    WeeklyBusiest(df);
  }

  lemma WeeklyTotals(df: seq<Message>)
    ensures var r := AnalyzeWeeklyActivity(df);
      r.weekend + r.weekday == |df| && r.weekend == r.data[5].messages + r.data[6].messages
  {
    var counts := BucketCounts(Weekdays(df), 7);
    BucketSum(Weekdays(df), 7);
    SumSeven(counts);
  }

  lemma SumSeven(xs: seq<int>)
    requires |xs| == 7
    ensures Sum(xs) == xs[0] + xs[1] + xs[2] + xs[3] + xs[4] + xs[5] + xs[6]
  {
    assert xs == xs[..7];
    SumPrefixStep(xs, 0);
    SumPrefixStep(xs, 1);
    SumPrefixStep(xs, 2);
    SumPrefixStep(xs, 3);
    SumPrefixStep(xs, 4);
    SumPrefixStep(xs, 5);
    SumPrefixStep(xs, 6);
  }

  lemma SumPrefixStep(xs: seq<int>, k: nat)
    requires k < |xs|
    ensures Sum(xs[..k + 1]) == Sum(xs[..k]) + xs[k]
  {
    assert xs[..k + 1][..k] == xs[..k];
  }

  lemma WeeklyBusiest(df: seq<Message>)
    ensures var r := AnalyzeWeeklyActivity(df);
      exists b :: 0 <= b < 7 && r.busiestDay == DayNames[b]
        && (forall d :: 0 <= d < 7 ==> r.data[d].messages <= r.data[b].messages)
        && (forall d :: 0 <= d < b ==> r.data[d].messages < r.data[b].messages)
  {
    var r := AnalyzeWeeklyActivity(df);
    var counts := BucketCounts(Weekdays(df), 7);
    var b := FirstArgMax(counts, CountKey);
    forall d | 0 <= d < 7 ensures r.data[d].messages <= r.data[b].messages {
      assert CountKey(counts[d]) <= CountKey(counts[b]);
    }
    forall d | 0 <= d < b ensures r.data[d].messages < r.data[b].messages {
      assert CountKey(counts[d]) < CountKey(counts[b]);
    }
  }
}
