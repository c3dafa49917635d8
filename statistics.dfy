/**
 * `get_statistics`: the totals over every URL first, then one row per URL
 * with its count, its shares of the totals, and the sum, mean, maximum and
 * median of its request times, and finally the first `report_size` rows.
 *
 * Request times are exact thousandths of a second (`nat`); a value in
 * seconds is a `real`.  `round(x, 3)` is rounding to the nearest thousandth
 * with ties going up.
 */
module Statistics {
  import opened Results
  import opened Aggregator

  // ---------------------------------------------------------------------
  // Rounding to three decimals
  // ---------------------------------------------------------------------

  /** `round(x, 3)` */
  function Round3(x: real): real {
    ((x * 1000.0 + 0.5).Floor as real) / 1000.0
  }

  /** Rounding moves a value by at most half a thousandth. */
  lemma Round3Near(x: real)
    ensures x - 0.0005 < Round3(x) <= x + 0.0005
  {
    var f := (x * 1000.0 + 0.5).Floor;
    assert f as real <= x * 1000.0 + 0.5 < f as real + 1.0;
  }

  /** A whole number of thousandths is left as it is. */
  lemma Round3Exact(k: int)
    ensures Round3(k as real / 1000.0) == k as real / 1000.0
  {
    assert (k as real / 1000.0) * 1000.0 + 0.5 == k as real + 0.5;
    assert (k as real + 0.5).Floor == k;
  }

  // ---------------------------------------------------------------------
  // sum, max, mean and median of one URL's request times
  // ---------------------------------------------------------------------

  /** `sum(value)`, in thousandths. */
  function Sum(xs: seq<nat>): nat {
    if xs == [] then 0 else xs[0] + Sum(xs[1..])
  }

  /** `max(value)`, in thousandths. */
  function Max(xs: seq<nat>): (m: nat)
    requires xs != []
    ensures m in xs
    ensures forall i :: 0 <= i < |xs| ==> xs[i] <= m
  {
    if |xs| == 1 then xs[0]
    else
      var rest := Max(xs[1..]);
      assert forall i :: 1 <= i < |xs| ==> xs[i] == xs[1..][i - 1];
      if xs[0] >= rest then xs[0] else rest
  }

  /** `statistics.mean(value)`, in seconds. */
  function Mean(xs: seq<nat>): real
    requires xs != []
  {
    (Sum(xs) as real / 1000.0) / (|xs| as real)
  }

  /** The mean spreads the sum evenly over the values. */
  lemma MeanTimesCount(xs: seq<nat>)
    requires xs != []
    ensures Mean(xs) * (|xs| as real) == Sum(xs) as real / 1000.0
  {
  }

  /** Values between `lo` and `hi` add up to between `|xs|` times each. */
  lemma {:induction false} SumBetween(xs: seq<nat>, lo: nat, hi: nat)
    requires forall i :: 0 <= i < |xs| ==> lo <= xs[i] <= hi
    ensures |xs| * lo <= Sum(xs) <= |xs| * hi
    decreases |xs|
  {
    if xs != [] {
      assert forall i :: 0 <= i < |xs| - 1 ==> xs[1..][i] == xs[i + 1];
      SumBetween(xs[1..], lo, hi);
      assert |xs| * lo == lo + (|xs| - 1) * lo;
      assert |xs| * hi == hi + (|xs| - 1) * hi;
    }
  }

  /** The mean lies between any lower and any upper bound of the values. */
  lemma MeanBetween(xs: seq<nat>, lo: nat, hi: nat)
    requires xs != []
    requires forall i :: 0 <= i < |xs| ==> lo <= xs[i] <= hi
    ensures lo as real / 1000.0 <= Mean(xs) <= hi as real / 1000.0
  {
    SumBetween(xs, lo, hi);
    QuotientBetween(|xs|, Sum(xs), lo, hi);
  }

  /** A sum of `n` values between `lo` and `hi` thousandths, spread over `n`, lies between them. */
  lemma QuotientBetween(n: nat, sum: nat, lo: nat, hi: nat)
    requires n > 0 && n * lo <= sum <= n * hi
    ensures lo as real / 1000.0 <= (sum as real / 1000.0) / (n as real) <= hi as real / 1000.0
  {
    CastProduct(n, lo);
    CastProduct(n, hi);
    RealQuotientBetween(n as real, sum as real, lo as real, hi as real);
    Thousandths(sum as real / n as real, sum as real, n as real);
  }

  lemma CastProduct(a: nat, b: nat)
    ensures (a * b) as real == a as real * b as real
  {
  }

  lemma RealQuotientBetween(n: real, total: real, low: real, high: real)
    requires n > 0.0 && n * low <= total <= n * high
    ensures low <= total / n <= high
  {
    assert total / n * n == total;
  }

  lemma Thousandths(q: real, total: real, n: real)
    requires n > 0.0 && q == total / n
    ensures (total / 1000.0) / n == q / 1000.0
  {
  }

  predicate Sorted(s: seq<nat>) {
    forall i, j :: 0 <= i < j < |s| ==> s[i] <= s[j]
  }

  /** How many of `xs` satisfy `keep`. */
  function CountWhere(xs: seq<nat>, keep: nat -> bool): nat {
    if xs == [] then 0 else (if keep(xs[0]) then 1 else 0) + CountWhere(xs[1..], keep)
  }

  /** Puts `x` before the first value of `s` that is not smaller. */
  function Insert(x: nat, s: seq<nat>): (r: seq<nat>)
    ensures |r| == |s| + 1
  {
    if s == [] then [x]
    else if x <= s[0] then [x] + s
    else [s[0]] + Insert(x, s[1..])
  }

  /** The sorted copy that `statistics.median` takes. */
  function Sort(xs: seq<nat>): (s: seq<nat>)
    ensures |s| == |xs|
  {
    if xs == [] then [] else Insert(xs[0], Sort(xs[1..]))
  }

  /** Inserting adds just `x` to the values. */
  lemma {:induction false} InsertPermutes(x: nat, s: seq<nat>)
    ensures multiset(Insert(x, s)) == multiset(s) + multiset{x}
    decreases |s|
  {
    if s != [] && x > s[0] {
      var rest := Insert(x, s[1..]);
      InsertPermutes(x, s[1..]);
      assert Insert(x, s) == [s[0]] + rest;
      assert s == [s[0]] + s[1..];
      assert multiset([s[0]] + rest) == multiset{s[0]} + multiset(rest);
    }
  }

  /** A value no larger than any of sorted values may go in front of them. */
  lemma ConsSorted(h: nat, rest: seq<nat>)
    requires Sorted(rest) && forall i :: 0 <= i < |rest| ==> h <= rest[i]
    ensures Sorted([h] + rest)
  {
  }

  /** Inserting into sorted values keeps them sorted. */
  lemma {:induction false} InsertSorted(x: nat, s: seq<nat>)
    requires Sorted(s)
    ensures Sorted(Insert(x, s))
    decreases |s|
  {
    if s != [] && x > s[0] {
      var rest := Insert(x, s[1..]);
      InsertSorted(x, s[1..]);
      InsertPermutes(x, s[1..]);
      forall i | 0 <= i < |rest| ensures s[0] <= rest[i] {
        assert rest[i] in multiset(s[1..]) + multiset{x} by {
          assert rest[i] in multiset(rest);
        }
        if rest[i] != x {
          assert rest[i] in s[1..];
        }
      }
      ConsSorted(s[0], rest);
    }
  }

  /** `Sort` returns its values, sorted. */
  lemma {:induction false} SortSorted(xs: seq<nat>)
    ensures Sorted(Sort(xs)) && multiset(Sort(xs)) == multiset(xs)
    decreases |xs|
  {
    if xs != [] {
      SortSorted(xs[1..]);
      InsertSorted(xs[0], Sort(xs[1..]));
      InsertPermutes(xs[0], Sort(xs[1..]));
      assert xs == [xs[0]] + xs[1..];
    }
  }

  lemma {:induction false} InsertCount(x: nat, s: seq<nat>, keep: nat -> bool)
    ensures CountWhere(Insert(x, s), keep) == CountWhere(s, keep) + (if keep(x) then 1 else 0)
    decreases |s|
  {
    if s != [] && x > s[0] {
      InsertCount(x, s[1..], keep);
      assert ([s[0]] + Insert(x, s[1..]))[1..] == Insert(x, s[1..]);
    } else if s != [] {
      assert ([x] + s)[1..] == s;
    }
  }

  /** Sorting keeps how many values satisfy any test. */
  lemma {:induction false} SortCount(xs: seq<nat>, keep: nat -> bool)
    ensures CountWhere(Sort(xs), keep) == CountWhere(xs, keep)
    decreases |xs|
  {
    if xs != [] {
      SortCount(xs[1..], keep);
      InsertCount(xs[0], Sort(xs[1..]), keep);
    }
  }

  /** The middle value of sorted values, doubled, or the two middle ones added. */
  function Middle(s: seq<nat>): nat
    requires s != []
  {
    var n := |s|;
    if n % 2 == 1 then 2 * s[n / 2] else s[n / 2 - 1] + s[n / 2]
  }

  /** Twice the median, in thousandths. */
  function MiddleSum(xs: seq<nat>): nat
    requires xs != []
  {
    Middle(Sort(xs))
  }

  /** `statistics.median(value)`, in seconds. */
  function Median(xs: seq<nat>): real
    requires xs != []
  {
    MiddleSum(xs) as real / 2000.0
  }

  lemma {:induction false} CountPrefix(s: seq<nat>, keep: nat -> bool, k: nat)
    requires k <= |s|
    requires forall i :: 0 <= i < k ==> keep(s[i])
    ensures CountWhere(s, keep) >= k
    decreases k
  {
    if k > 0 {
      CountPrefix(s[1..], keep, k - 1);
    }
  }

  lemma {:induction false} CountSuffix(s: seq<nat>, keep: nat -> bool, k: nat)
    requires k <= |s|
    requires forall i :: k <= i < |s| ==> keep(s[i])
    ensures CountWhere(s, keep) >= |s| - k
    decreases |s|
  {
    if s != [] {
      if k == 0 {
        CountSuffix(s[1..], keep, 0);
      } else {
        CountSuffix(s[1..], keep, k - 1);
      }
    }
  }

  /** The test "at most half of `m`", on thousandths. */
  function AtMostHalfOf(m: nat): nat -> bool {
    x => 2 * x <= m
  }

  /** The test "at least half of `m`", on thousandths. */
  function AtLeastHalfOf(m: nat): nat -> bool {
    x => 2 * x >= m
  }

  lemma SortedHalves(s: seq<nat>, m: nat)
    requires Sorted(s) && s != []
    requires m == s[(|s| - 1) / 2] + s[|s| / 2]
    ensures 2 * CountWhere(s, AtMostHalfOf(m)) >= |s|
    ensures 2 * CountWhere(s, AtLeastHalfOf(m)) >= |s|
  {
    var n := |s|;
    CountPrefix(s, AtMostHalfOf(m), (n - 1) / 2 + 1);
    CountSuffix(s, AtLeastHalfOf(m), n / 2);
  }

  /** Both forms of the middle for an odd or an even count. */
  lemma MiddleIndices(n: nat)
    requires n > 0
    ensures n % 2 == 1 ==> (n - 1) / 2 == n / 2
    ensures n % 2 == 0 ==> (n - 1) / 2 == n / 2 - 1
  {
  }

  lemma MiddleIsSum(s: seq<nat>)
    requires s != []
    ensures Middle(s) == s[(|s| - 1) / 2] + s[|s| / 2]
  {
    MiddleIndices(|s|);
  }

  /**
   * The median splits the values in halves: at least half of them are at
   * most the median and at least half are at least the median.
   */
  lemma MedianSplits(xs: seq<nat>)
    requires xs != []
    ensures 2 * CountWhere(xs, AtMostHalfOf(MiddleSum(xs))) >= |xs|
    ensures 2 * CountWhere(xs, AtLeastHalfOf(MiddleSum(xs))) >= |xs|
  {
    var s := Sort(xs);
    var m := MiddleSum(xs);
    MiddleIsSum(s);
    SortSorted(xs);
    SortedHalves(s, m);
    assert |s| == |xs|;
    SortCount(xs, AtMostHalfOf(m));
    assert CountWhere(s, AtMostHalfOf(m)) == CountWhere(xs, AtMostHalfOf(m));
    SortCount(xs, AtLeastHalfOf(m));
    assert CountWhere(s, AtLeastHalfOf(m)) == CountWhere(xs, AtLeastHalfOf(m));
  }

  /** The median lies between two of the values: it is at most the largest one. */
  lemma MedianBounds(xs: seq<nat>)
    requires xs != []
    ensures MiddleSum(xs) <= 2 * Max(xs)
    ensures exists i :: 0 <= i < |xs| && 2 * xs[i] <= MiddleSum(xs)
  {
    var s := Sort(xs);
    var n := |s|;
    MiddleIsSum(s);
    SortSorted(xs);
    assert s[(n - 1) / 2] in multiset(xs) && s[n / 2] in multiset(xs);
    assert s[0] in multiset(xs);
    var j :| 0 <= j < |xs| && xs[j] == s[0];
  }

  // ---------------------------------------------------------------------
  // The rows
  // ---------------------------------------------------------------------

  /** One URL of `records.items()`. */
  datatype Entry = Entry(url: string, times: seq<nat>)

  /** One row of the report; times in seconds, shares in percent. */
  datatype UrlStat = UrlStat(
    url: string, count: nat, countPerc: real, timeAvg: real,
    timeMax: real, timeMed: real, timePerc: real, timeSum: real)

  datatype StatisticsError =
    | ZeroTotalTime     // `ZeroDivisionError` of `sum(value) / time_overall`
    | EmptyTimes        // `StatisticsError` of `statistics.mean` on an empty list

  /** Every URL listed has its list of times. */
  predicate Listed(g: Grouping) {
    forall u :: u in g.urls ==> u in g.times
  }

  /** `records.items()` */
  function Items(g: Grouping): (items: seq<Entry>)
    requires Listed(g)
    ensures |items| == |g.urls|
    ensures forall i :: 0 <= i < |items| ==> items[i] == Entry(g.urls[i], g.times[g.urls[i]])
  {
    seq(|g.urls|, i requires 0 <= i < |g.urls| => Entry(g.urls[i], g.times[g.urls[i]]))
  }

  /** `time_overall`, in thousandths. */
  function TotalTime(items: seq<Entry>): nat {
    if items == [] then 0 else TotalTime(items[..|items| - 1]) + Sum(items[|items| - 1].times)
  }

  /** `overall_rec` */
  function TotalCount(items: seq<Entry>): nat {
    if items == [] then 0 else TotalCount(items[..|items| - 1]) + |items[|items| - 1].times|
  }

  lemma {:induction false} SumPositive(xs: seq<nat>)
    requires Sum(xs) > 0
    ensures xs != []
  {
  }

  /** Time was spent only if some request was made. */
  lemma {:induction false} TimeNeedsRecords(items: seq<Entry>)
    requires TotalTime(items) > 0
    ensures TotalCount(items) > 0
    decreases |items|
  {
    var init := items[..|items| - 1];
    if TotalTime(init) > 0 {
      TimeNeedsRecords(init);
    } else {
      SumPositive(items[|items| - 1].times);
    }
  }

  /** The row of one URL, given the totals. */
  function Row(e: Entry, timeOverall: nat, overallRec: nat): UrlStat
    requires e.times != [] && timeOverall > 0 && overallRec > 0
  {
    var xs := e.times;
    UrlStat(
      e.url,
      |xs|,
      Round3(|xs| as real / overallRec as real * 100.0),
      Mean(xs),
      Round3(Max(xs) as real / 1000.0),
      Median(xs),
      Round3(Sum(xs) as real / timeOverall as real * 100.0),
      Round3(Sum(xs) as real / 1000.0))
  }

  predicate NoneEmpty(items: seq<Entry>) {
    forall i :: 0 <= i < |items| ==> items[i].times != []
  }

  function Rows(items: seq<Entry>, timeOverall: nat, overallRec: nat): (rows: seq<UrlStat>)
    requires NoneEmpty(items) && timeOverall > 0 && overallRec > 0
    ensures |rows| == |items|
    ensures forall i :: 0 <= i < |items| ==> rows[i] == Row(items[i], timeOverall, overallRec)
  {
    if items == [] then []
    else Rows(items[..|items| - 1], timeOverall, overallRec) + [Row(items[|items| - 1], timeOverall, overallRec)]
  }

  /** `stat[:report_size]`, a Python slice: a negative size drops rows from the end. */
  function Truncate<T>(s: seq<T>, size: int): seq<T> {
    if size >= 0 then (if size <= |s| then s[..size] else s)
    else if -size <= |s| then s[..|s| + size] else []
  }

  /** A size that reaches the end keeps every row. */
  lemma TruncateAll<T>(s: seq<T>, size: int)
    requires size >= |s|
    ensures Truncate(s, size) == s
  {
    assert s[..|s|] == s;
  }

  /** What `get_statistics(records, report_size)` returns or raises. */
  function GetStatisticsSpec(g: Grouping, reportSize: int): Result<seq<UrlStat>, StatisticsError>
    requires Listed(g)
  {
    var items := Items(g);
    if items == [] then Success([])
    else if TotalTime(items) == 0 then Failure(ZeroTotalTime)
    else if !NoneEmpty(items) then Failure(EmptyTimes)
    else
      TimeNeedsRecords(items);
      Success(Truncate(Rows(items, TotalTime(items), TotalCount(items)), reportSize))
  }

  /** One more URL adds its time and its count to the totals. */
  lemma TotalsStep(items: seq<Entry>, i: nat)
    requires i < |items|
    ensures TotalTime(items[..i + 1]) == TotalTime(items[..i]) + Sum(items[i].times)
    ensures TotalCount(items[..i + 1]) == TotalCount(items[..i]) + |items[i].times|
  {
    assert items[..i + 1][..i] == items[..i];
  }

  /** One more URL adds its row at the end. */
  lemma RowsStep(items: seq<Entry>, i: nat, timeOverall: nat, overallRec: nat)
    requires i < |items| && NoneEmpty(items[..i]) && items[i].times != []
    requires timeOverall > 0 && overallRec > 0
    ensures NoneEmpty(items[..i + 1])
    ensures Rows(items[..i + 1], timeOverall, overallRec)
      == Rows(items[..i], timeOverall, overallRec) + [Row(items[i], timeOverall, overallRec)]
  {
    assert items[..i + 1][..i] == items[..i];
  }

  /** The two loops of `get_statistics`. */
  method GetStatistics(g: Grouping, reportSize: int)
    returns (r: Result<seq<UrlStat>, StatisticsError>)
    requires Listed(g)
    ensures r == GetStatisticsSpec(g, reportSize)
  {
    ghost var items := Items(g);
    var timeOverall := 0;
    var overallRec := 0;
    for i := 0 to |g.urls|
      invariant timeOverall == TotalTime(items[..i])
      invariant overallRec == TotalCount(items[..i])
    {
      var value := g.times[g.urls[i]];
      TotalsStep(items, i);
      timeOverall := timeOverall + Sum(value);
      overallRec := overallRec + |value|;
    }
    assert items[..|g.urls|] == items;
    var stat: seq<UrlStat> := [];
    for i := 0 to |g.urls|
      invariant i > 0 ==> timeOverall > 0 && overallRec > 0
      invariant NoneEmpty(items[..i])
      invariant stat == if i == 0 then [] else Rows(items[..i], timeOverall, overallRec)
    {
      var value := g.times[g.urls[i]];
      if timeOverall == 0 {
        return Failure(ZeroTotalTime);
      }
      TimeNeedsRecords(items);
      if value == [] {
        return Failure(EmptyTimes);
      }
      assert items[i] == Entry(g.urls[i], value);
      RowsStep(items, i, timeOverall, overallRec);
      stat := stat + [Row(Entry(g.urls[i], value), timeOverall, overallRec)];
    }
    if |g.urls| > 0 {
      assert items[..|g.urls|] == items;
    }
    r := Success(Truncate(stat, reportSize));
  }

  // ---------------------------------------------------------------------
  // What the rows mean
  // ---------------------------------------------------------------------

  /** `get_statistics` fails exactly on a zero total time or an empty list. */
  lemma GetStatisticsFailsIff(g: Grouping, reportSize: int)
    requires Listed(g)
    ensures GetStatisticsSpec(g, reportSize) == Failure(ZeroTotalTime)
      <==> g.urls != [] && TotalTime(Items(g)) == 0
    ensures GetStatisticsSpec(g, reportSize) == Failure(EmptyTimes)
      <==> TotalTime(Items(g)) > 0 && exists u :: u in g.urls && g.times[u] == []
  {
    var items := Items(g);
    if TotalTime(items) > 0 && exists u :: u in g.urls && g.times[u] == [] {
      var u :| u in g.urls && g.times[u] == [];
      var i :| 0 <= i < |g.urls| && g.urls[i] == u;
      assert items[i].times == [];
    }
  }

  /** A grouping built by the aggregator lists every URL it holds. */
  lemma GroupingIsListed(g: Grouping)
    requires Valid(g)
    ensures Listed(g)
  {
  }

  /** On a grouping built by the aggregator only a zero total time can fail. */
  lemma AggregatedNeverEmpty(g: Grouping, reportSize: int)
    requires Valid(g)
    ensures Listed(g) && GetStatisticsSpec(g, reportSize) != Failure(EmptyTimes)
  {
    GetStatisticsFailsIff(g, reportSize);
  }

  /**
   * What the fields of one row are, in terms of the URL's request times:
   * the rounding of the sum and of the maximum changes nothing, since both
   * are whole thousandths.
   */
  lemma RowMeaning(e: Entry, timeOverall: nat, overallRec: nat)
    requires e.times != [] && timeOverall > 0 && overallRec > 0
    ensures var row := Row(e, timeOverall, overallRec);
      && row.url == e.url
      && row.count == |e.times|
      && row.timeSum == Sum(e.times) as real / 1000.0
      && row.timeMax == Max(e.times) as real / 1000.0
      && row.timeAvg == Mean(e.times)
      && row.timeMed == Median(e.times)
  {
    var row := Row(e, timeOverall, overallRec);
    var total := Sum(e.times);
    var largest := Max(e.times);
    assert row.timeSum == Round3(total as real / 1000.0);
    assert row.timeMax == Round3(largest as real / 1000.0);
    Round3Exact(total);
    Round3Exact(largest);
    assert row.timeAvg == Mean(e.times) && row.count == |e.times|;
  }

  /** The two shares of one row are the exact shares, rounded. */
  lemma RowShares(e: Entry, timeOverall: nat, overallRec: nat)
    requires e.times != [] && timeOverall > 0 && overallRec > 0
    ensures var row := Row(e, timeOverall, overallRec);
      && -0.0005 < row.timePerc - Sum(e.times) as real / timeOverall as real * 100.0 <= 0.0005
      && -0.0005 < row.countPerc - |e.times| as real / overallRec as real * 100.0 <= 0.0005
  {
    Round3Near(Sum(e.times) as real / timeOverall as real * 100.0);
    Round3Near(|e.times| as real / overallRec as real * 100.0);
  }

  /**
   * The result holds the rows of the first URLs in the grouping's order, as
   * many as `report_size` asks for when it is not negative.
   */
  lemma StatisticsRows(g: Grouping, reportSize: int)
    requires Listed(g) && GetStatisticsSpec(g, reportSize).Success?
    ensures var rows := GetStatisticsSpec(g, reportSize).value;
      && (reportSize >= 0 ==> |rows| == if reportSize <= |g.urls| then reportSize else |g.urls|)
      && (reportSize < 0 ==> |rows| == if -reportSize <= |g.urls| then |g.urls| + reportSize else 0)
      && (g.urls != [] ==> TotalTime(Items(g)) > 0 && TotalCount(Items(g)) > 0 && NoneEmpty(Items(g)))
      && forall i :: 0 <= i < |rows| ==>
           && rows[i].url == g.urls[i]
           && rows[i].count == |g.times[g.urls[i]]|
           && rows[i].timeSum == Sum(g.times[g.urls[i]]) as real / 1000.0
           && rows[i] == Row(Entry(g.urls[i], g.times[g.urls[i]]), TotalTime(Items(g)), TotalCount(Items(g)))
  {
    var items := Items(g);
    if items != [] {
      var rows := GetStatisticsSpec(g, reportSize).value;
      TimeNeedsRecords(items);
      var all := Rows(items, TotalTime(items), TotalCount(items));
      forall i | 0 <= i < |rows|
        ensures rows[i].url == g.urls[i]
        ensures rows[i].count == |g.times[g.urls[i]]|
        ensures rows[i].timeSum == Sum(g.times[g.urls[i]]) as real / 1000.0
        ensures rows[i] == Row(items[i], TotalTime(items), TotalCount(items))
      {
        assert rows[i] == all[i];
        RowMeaning(items[i], TotalTime(items), TotalCount(items));
      }
    }
  }

  // ---------------------------------------------------------------------
  // The shares add up to 100
  // ---------------------------------------------------------------------

  /** The exact time shares of the URLs, added up. */
  function TimeShares(items: seq<Entry>, timeOverall: nat): real
    requires timeOverall > 0
  {
    if items == [] then 0.0
    else
      var last := Sum(items[|items| - 1].times) as real / timeOverall as real * 100.0;
      TimeShares(items[..|items| - 1], timeOverall) + last
  }

  /** The exact count shares of the URLs, added up. */
  function CountShares(items: seq<Entry>, overallRec: nat): real
    requires overallRec > 0
  {
    if items == [] then 0.0
    else
      var last := |items[|items| - 1].times| as real / overallRec as real * 100.0;
      CountShares(items[..|items| - 1], overallRec) + last
  }

  lemma PercentAdd(a: real, b: real, d: real)
    requires d > 0.0
    ensures a / d * 100.0 + b / d * 100.0 == (a + b) / d * 100.0
  {
  }

  lemma {:induction false} TimeSharesOfPrefix(items: seq<Entry>, timeOverall: nat)
    requires timeOverall > 0
    ensures TimeShares(items, timeOverall) == TotalTime(items) as real / timeOverall as real * 100.0
    decreases |items|
  {
    if items != [] {
      var init := items[..|items| - 1];
      TimeSharesOfPrefix(init, timeOverall);
      PercentAdd(TotalTime(init) as real, Sum(items[|items| - 1].times) as real, timeOverall as real);
    }
  }

  lemma {:induction false} CountSharesOfPrefix(items: seq<Entry>, overallRec: nat)
    requires overallRec > 0
    ensures CountShares(items, overallRec) == TotalCount(items) as real / overallRec as real * 100.0
    decreases |items|
  {
    if items != [] {
      var init := items[..|items| - 1];
      CountSharesOfPrefix(init, overallRec);
      PercentAdd(TotalCount(init) as real, |items[|items| - 1].times| as real, overallRec as real);
    }
  }

  /** Over every URL, the exact time shares and count shares each add up to 100. */
  lemma ExactSharesAddUp(items: seq<Entry>)
    requires TotalTime(items) > 0
    ensures TotalCount(items) > 0
    ensures TimeShares(items, TotalTime(items)) == 100.0
    ensures CountShares(items, TotalCount(items)) == 100.0
  {
    TimeNeedsRecords(items);
    TimeSharesOfPrefix(items, TotalTime(items));
    CountSharesOfPrefix(items, TotalCount(items));
    WholePercent(TotalTime(items) as real);
    WholePercent(TotalCount(items) as real);
  }

  lemma WholePercent(d: real)
    requires d > 0.0
    ensures d / d * 100.0 == 100.0
  {
  }

  /** `time_perc` of the rows, added up. */
  function TimePercSum(rows: seq<UrlStat>): real {
    if rows == [] then 0.0 else TimePercSum(rows[..|rows| - 1]) + rows[|rows| - 1].timePerc
  }

  /** `count_perc` of the rows, added up. */
  function CountPercSum(rows: seq<UrlStat>): real {
    if rows == [] then 0.0 else CountPercSum(rows[..|rows| - 1]) + rows[|rows| - 1].countPerc
  }

  /** Each rounded share is within half a thousandth of the exact one. */
  lemma {:induction false} RoundedSharesClose(items: seq<Entry>, timeOverall: nat, overallRec: nat)
    requires NoneEmpty(items) && timeOverall > 0 && overallRec > 0
    ensures var rows := Rows(items, timeOverall, overallRec);
      var slack := 0.0005 * |items| as real;
      && -slack <= TimePercSum(rows) - TimeShares(items, timeOverall) <= slack
      && -slack <= CountPercSum(rows) - CountShares(items, overallRec) <= slack
    decreases |items|
  {
    if items != [] {
      var init := items[..|items| - 1];
      var rows := Rows(items, timeOverall, overallRec);
      assert NoneEmpty(init);
      RoundedSharesClose(init, timeOverall, overallRec);
      assert rows[..|rows| - 1] == Rows(init, timeOverall, overallRec);
      RowShares(items[|items| - 1], timeOverall, overallRec);
    }
  }

  /**
   * When `report_size` keeps every URL, the reported `time_perc` and
   * `count_perc` each add up to 100 within half a thousandth per row.
   */
  lemma ReportedSharesAddUp(g: Grouping, reportSize: int)
    requires Listed(g) && GetStatisticsSpec(g, reportSize).Success?
    requires g.urls != [] && reportSize >= |g.urls|
    ensures var rows := GetStatisticsSpec(g, reportSize).value;
      var slack := 0.0005 * |rows| as real;
      && |rows| == |g.urls|
      && -slack <= TimePercSum(rows) - 100.0 <= slack
      && -slack <= CountPercSum(rows) - 100.0 <= slack
  {
    var items := Items(g);
    var t := TotalTime(items);
    ExactSharesAddUp(items);
    var c := TotalCount(items);
    var all := Rows(items, t, c);
    assert GetStatisticsSpec(g, reportSize).value == all;
    RoundedSharesClose(items, t, c);
  }

  /** A single URL gets 100 percent of the time and of the requests. */
  lemma SingleUrlGetsAll(url: string, times: seq<nat>, reportSize: int)
    requires Sum(times) > 0 && reportSize >= 1
    ensures var g := Grouping([url], map[url := times]);
      && Listed(g)
      && GetStatisticsSpec(g, reportSize).Success?
      && |GetStatisticsSpec(g, reportSize).value| == 1
      && GetStatisticsSpec(g, reportSize).value[0].timePerc == 100.0
      && GetStatisticsSpec(g, reportSize).value[0].countPerc == 100.0
      && GetStatisticsSpec(g, reportSize).value[0] == Row(Entry(url, times), Sum(times), |times|)
  {
    var g := Grouping([url], map[url := times]);
    var e := Entry(url, times);
    var items := Items(g);
    assert |items| == 1 && items[0] == e;
    assert items == [e];
    SumPositive(times);
    assert items[..0] == [];
    assert TotalTime(items) == Sum(times);
    assert TotalCount(items) == |times|;
    var row := Row(e, Sum(times), |times|);
    assert Rows(items, Sum(times), |times|) == [row];
    TruncateAll([row], reportSize);
    assert GetStatisticsSpec(g, reportSize) == Success([row]);
    assert row.timePerc == 100.0 by {
      WholeShare(Sum(times) as real);
    }
    assert row.countPerc == 100.0 by {
      WholeShare(|times| as real);
    }
  }

  /** A share of the whole is 100 percent, and rounding leaves it so. */
  lemma WholeShare(a: real)
    requires a > 0.0
    ensures Round3(a / a * 100.0) == 100.0
  {
    assert a / a == 1.0;
    Round3Exact(100000);
  }

  /** Two sorted sequences with the same values start with the same, least, value. */
  lemma SortedSameHead(a: seq<nat>, b: seq<nat>)
    requires Sorted(a) && Sorted(b) && multiset(a) == multiset(b) && a != [] && b != []
    ensures a[0] == b[0]
  {
    assert a[0] in multiset(b) && b[0] in multiset(a);
    var i :| 0 <= i < |b| && b[i] == a[0];
    var j :| 0 <= j < |a| && a[j] == b[0];
  }

  lemma SameTails(a: seq<nat>, b: seq<nat>)
    requires multiset(a) == multiset(b) && a != [] && b != [] && a[0] == b[0]
    ensures multiset(a[1..]) == multiset(b[1..])
  {
    assert a == [a[0]] + a[1..] && b == [b[0]] + b[1..];
    assert multiset(a[1..]) == multiset(a) - multiset{a[0]};
    assert multiset(b[1..]) == multiset(b) - multiset{b[0]};
  }

  /** Sorted values are determined by the values they hold. */
  lemma {:induction false} SortedUnique(a: seq<nat>, b: seq<nat>)
    requires Sorted(a) && Sorted(b) && multiset(a) == multiset(b)
    ensures a == b
    decreases |a|
  {
    assert |a| == |b| by {
      assert |a| == |multiset(a)| && |b| == |multiset(b)|;
    }
    if a != [] {
      SortedSameHead(a, b);
      SameTails(a, b);
      SortedUnique(a[1..], b[1..]);
      assert a == [a[0]] + a[1..] && b == [b[0]] + b[1..];
    }
  }

  /** Four values whose first one belongs third are sorted by `Sort`. */
  lemma SortFour(a: nat, b: nat, c: nat, d: nat)
    requires b <= c < a <= d
    ensures Sort([a, b, c, d]) == [b, c, a, d]
  {
    assert [a, b, c, d][1..] == [b, c, d];
    assert [b, c, d][1..] == [c, d];
    assert [c, d][1..] == [d];
    assert [d][1..] == [];
    assert Sort([d]) == [d];
    assert Sort([c, d]) == [c, d];
    assert Sort([b, c, d]) == [b, c, d];
    assert Insert(a, [d]) == [a, d];
    assert Insert(a, [c, d]) == [c, a, d];
    assert Insert(a, [b, c, d]) == [b, c, a, d];
  }

  /** The sorted times of the example and their median. */
  lemma ExampleMedian()
    ensures Sort([100, 10, 30, 500]) == [10, 30, 100, 500]
    ensures Median([100, 10, 30, 500]) == 0.065
  {
    SortFour(100, 10, 30, 500);
    MiddleOfFour(10, 30, 100, 500);
  }

  lemma MiddleOfFour(a: nat, b: nat, c: nat, d: nat)
    ensures Middle([a, b, c, d]) == b + c
  {
  }

  /** The row of the example URL, given its totals. */
  lemma ExampleRow()
    ensures Row(Entry("/api/v2/banner/20770003", [100, 10, 30, 500]), 640, 4)
      == UrlStat("/api/v2/banner/20770003", 4, 100.0, 0.16, 0.5, 0.065, 100.0, 0.64)
  {
    var times: seq<nat> := [100, 10, 30, 500];
    var e := Entry("/api/v2/banner/20770003", times);
    assert Sum(times) == 640 && Max(times) == 500;
    assert Mean(times) == 0.16;
    ExampleMedian();
    RowMeaning(e, 640, 4);
    WholeShare(640.0);
    WholeShare(4.0);
  }

  /**
   * The report of one URL with the times 0.1, 0.01, 0.03 and 0.5 seconds:
   * 4 requests, all of the time and all of the requests, a sum of 0.64, a
   * mean of 0.16, a maximum of 0.5 and a median of 0.065.
   */
  lemma GetStatisticsExample()
    ensures GetStatisticsSpec(Grouping(["/api/v2/banner/20770003"],
        map["/api/v2/banner/20770003" := [100, 10, 30, 500]]), 1)
      == Success([UrlStat("/api/v2/banner/20770003", 4, 100.0, 0.16, 0.5, 0.065, 100.0, 0.64)])
  {
    var url := "/api/v2/banner/20770003";
    var times: seq<nat> := [100, 10, 30, 500];
    assert Sum(times) == 640;
    SingleUrlGetsAll(url, times, 1);
    ExampleRow();
    var row := Row(Entry(url, times), 640, 4);
    var g := Grouping([url], map[url := times]);
    assert GetStatisticsSpec(g, 1).value == [row];
  }
}
