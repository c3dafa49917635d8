/**
 * The report of the heaviest URLs first: the rows of `get_statistics`
 * ordered by `time_sum`, larger first, then by `count`, larger first, then
 * by URL, before `report_size` cuts the list.  `get_statistics` itself cuts
 * the rows in the grouping's order; this module is the ordering that the
 * cut evidently wants, kept apart from the model of the code as written.
 */
module Ranking {
  import opened Results
  import opened Aggregator
  import opened Statistics

  /** `a <= b` on URLs, character by character. */
  predicate UrlNotAfter(a: string, b: string)
    decreases |a|
  {
    if a == [] then true
    else if b == [] then false
    else if a[0] != b[0] then a[0] < b[0]
    else UrlNotAfter(a[1..], b[1..])
  }

  lemma {:induction false} UrlOrderTotal(a: string, b: string)
    ensures UrlNotAfter(a, b) || UrlNotAfter(b, a)
    decreases |a|
  {
    if a != [] && b != [] && a[0] == b[0] {
      UrlOrderTotal(a[1..], b[1..]);
    }
  }

  lemma {:induction false} UrlOrderTransitive(a: string, b: string, c: string)
    requires UrlNotAfter(a, b) && UrlNotAfter(b, c)
    ensures UrlNotAfter(a, c)
    decreases |a|
  {
    if a != [] && b != [] && c != [] && a[0] == b[0] && b[0] == c[0] {
      UrlOrderTransitive(a[1..], b[1..], c[1..]);
    }
  }

  /** `a` may come before `b` in the report. */
  predicate RanksNotAfter(a: UrlStat, b: UrlStat) {
    || a.timeSum > b.timeSum
    || (a.timeSum == b.timeSum && a.count > b.count)
    || (a.timeSum == b.timeSum && a.count == b.count && UrlNotAfter(a.url, b.url))
  }

  lemma RankTotal(a: UrlStat, b: UrlStat)
    ensures RanksNotAfter(a, b) || RanksNotAfter(b, a)
  {
    UrlOrderTotal(a.url, b.url);
  }

  lemma RankTransitive(a: UrlStat, b: UrlStat, c: UrlStat)
    requires RanksNotAfter(a, b) && RanksNotAfter(b, c)
    ensures RanksNotAfter(a, c)
  {
    if a.timeSum == b.timeSum == c.timeSum && a.count == b.count == c.count {
      UrlOrderTransitive(a.url, b.url, c.url);
    }
  }

  predicate Ranked(rows: seq<UrlStat>) {
    forall i, j :: 0 <= i < j < |rows| ==> RanksNotAfter(rows[i], rows[j])
  }

  /** Puts `x` before the first row it may come before. */
  function InsertRow(x: UrlStat, rows: seq<UrlStat>): (r: seq<UrlStat>)
    ensures |r| == |rows| + 1
  {
    if rows == [] then [x]
    else if RanksNotAfter(x, rows[0]) then [x] + rows
    else [rows[0]] + InsertRow(x, rows[1..])
  }

  /** The rows, heaviest first. */
  function Rank(rows: seq<UrlStat>): (r: seq<UrlStat>)
    ensures |r| == |rows|
  {
    if rows == [] then [] else InsertRow(rows[0], Rank(rows[1..]))
  }

  lemma {:induction false} InsertRowPermutes(x: UrlStat, rows: seq<UrlStat>)
    ensures multiset(InsertRow(x, rows)) == multiset(rows) + multiset{x}
    decreases |rows|
  {
    if rows != [] && !RanksNotAfter(x, rows[0]) {
      var rest := InsertRow(x, rows[1..]);
      InsertRowPermutes(x, rows[1..]);
      assert InsertRow(x, rows) == [rows[0]] + rest;
      assert rows == [rows[0]] + rows[1..];
      assert multiset([rows[0]] + rest) == multiset{rows[0]} + multiset(rest);
    }
  }

  lemma {:induction false} InsertRowRanked(x: UrlStat, rows: seq<UrlStat>)
    requires Ranked(rows)
    ensures Ranked(InsertRow(x, rows))
    decreases |rows|
  {
    if rows != [] && RanksNotAfter(x, rows[0]) {
      forall j | 0 <= j < |rows| ensures RanksNotAfter(x, rows[j]) {
        if j > 0 {
          RankTransitive(x, rows[0], rows[j]);
        }
      }
      assert InsertRow(x, rows) == [x] + rows;
    } else if rows != [] {
      var rest := InsertRow(x, rows[1..]);
      InsertRowRanked(x, rows[1..]);
      InsertRowPermutes(x, rows[1..]);
      RankTotal(x, rows[0]);
      assert InsertRow(x, rows) == [rows[0]] + rest;
      forall i | 0 <= i < |rest| ensures RanksNotAfter(rows[0], rest[i]) {
        assert rest[i] in multiset(rows[1..]) + multiset{x} by {
          assert rest[i] in multiset(rest);
        }
      }
    }
  }

  /** `Rank` orders the rows and keeps every one of them. */
  lemma {:induction false} RankRanks(rows: seq<UrlStat>)
    ensures Ranked(Rank(rows)) && multiset(Rank(rows)) == multiset(rows)
    decreases |rows|
  {
    if rows != [] {
      RankRanks(rows[1..]);
      InsertRowRanked(rows[0], Rank(rows[1..]));
      InsertRowPermutes(rows[0], Rank(rows[1..]));
      assert rows == [rows[0]] + rows[1..];
    }
  }

  /** `get_statistics` with the rows ordered before they are cut. */
  function RankedStatisticsSpec(g: Grouping, reportSize: int): Result<seq<UrlStat>, StatisticsError>
    requires Listed(g)
  {
    match GetStatisticsSpec(g, |g.urls|)
    case Failure(e) => Failure(e)
    case Success(rows) => Success(Truncate(Rank(rows), reportSize))
  }

  /**
   * The first `k` ranked rows are in order of `time_sum`, and no row after
   * them has a larger `time_sum` than any of them.
   */
  lemma RankedTop(ranked: seq<UrlStat>, k: nat)
    requires Ranked(ranked) && k <= |ranked|
    ensures var top := ranked[..k];
      && multiset(top) <= multiset(ranked)
      && (forall i, j :: 0 <= i < j < |top| ==> top[i].timeSum >= top[j].timeSum)
      && (forall i, row :: 0 <= i < |top| && row in multiset(ranked) - multiset(top) ==>
            top[i].timeSum >= row.timeSum)
  {
    var top := ranked[..k];
    var rest := ranked[k..];
    assert ranked == top + rest;
    assert multiset(ranked) == multiset(top) + multiset(rest);
    forall i, j | 0 <= i < j < |top| ensures top[i].timeSum >= top[j].timeSum {
      assert RanksNotAfter(ranked[i], ranked[j]);
    }
    forall i, row | 0 <= i < |top| && row in multiset(ranked) - multiset(top)
      ensures top[i].timeSum >= row.timeSum
    {
      assert row in multiset(rest);
      var j :| 0 <= j < |rest| && rest[j] == row;
      assert RanksNotAfter(ranked[i], ranked[k + j]);
    }
  }

  /** The ordered report fails exactly when `get_statistics` fails. */
  lemma RankedFailsIff(g: Grouping, reportSize: int)
    requires Listed(g)
    ensures RankedStatisticsSpec(g, reportSize).Failure?
      <==> GetStatisticsSpec(g, reportSize).Failure?
    ensures RankedStatisticsSpec(g, reportSize).Failure? ==>
      RankedStatisticsSpec(g, reportSize) == GetStatisticsSpec(g, reportSize)
  {
    GetStatisticsFailsIff(g, reportSize);
    GetStatisticsFailsIff(g, |g.urls|);
  }

  /**
   * Otherwise it holds as many rows as `get_statistics`, taken from every
   * URL's row, heaviest first, and no row left out has a larger
   * `time_sum` than a row kept.
   */
  lemma RankedReport(g: Grouping, reportSize: int)
    requires Listed(g) && RankedStatisticsSpec(g, reportSize).Success?
    ensures var all := GetStatisticsSpec(g, |g.urls|).value;
      var top := RankedStatisticsSpec(g, reportSize).value;
      && |all| == |g.urls|
      && (reportSize >= 0 ==> |top| == if reportSize <= |g.urls| then reportSize else |g.urls|)
      && (reportSize < 0 ==> |top| == if -reportSize <= |g.urls| then |g.urls| + reportSize else 0)
      && multiset(top) <= multiset(all)
      && (forall i, j :: 0 <= i < j < |top| ==> top[i].timeSum >= top[j].timeSum)
      && (forall i, row :: 0 <= i < |top| && row in multiset(all) - multiset(top) ==>
            top[i].timeSum >= row.timeSum)
  {
    var all := GetStatisticsSpec(g, |g.urls|).value;
    StatisticsRows(g, |g.urls|);
    var ranked := Rank(all);
    RankRanks(all);
    var k :=
      if reportSize >= 0 then (if reportSize <= |g.urls| then reportSize else |g.urls|)
      else if -reportSize <= |g.urls| then |g.urls| + reportSize else 0;
    assert Truncate(ranked, reportSize) == ranked[..k];
    RankedTop(ranked, k);
  }

  /**
   * Three URLs whose total times are 5, 1 and 50 seconds, in that order.
   */
  const ThreeUrls := Grouping(["/a", "/c", "/b"], map["/a" := [5000], "/c" := [1000], "/b" := [50000]])

  lemma ThreeUrlsSucceed(reportSize: int)
    ensures Listed(ThreeUrls) && GetStatisticsSpec(ThreeUrls, reportSize).Success?
  {
    var items := Items(ThreeUrls);
    assert TotalTime(items) > 0 by {
      assert items[..2][..1] == items[..1];
      assert items[..1][..0] == [];
      assert items[..|items| - 1] == items[..2];
    }
    assert NoneEmpty(items);
  }

  /**
   * As written, a report of two rows keeps `/a` and `/c` and leaves out
   * `/b`, the URL with by far the largest total time.
   */
  lemma UnsortedCutExample()
    ensures Listed(ThreeUrls) && GetStatisticsSpec(ThreeUrls, 2).Success?
    ensures var rows := GetStatisticsSpec(ThreeUrls, 2).value;
      && |rows| == 2 && rows[0].url == "/a" && rows[1].url == "/c"
      && rows[0].timeSum == 5.0 && rows[1].timeSum == 1.0
      && Sum(ThreeUrls.times["/b"]) as real / 1000.0 == 50.0
  {
    ThreeUrlsSucceed(2);
    StatisticsRows(ThreeUrls, 2);
  }

  /** Three rows whose total times are in the middle, lowest and highest place. */
  lemma RankThree(a: UrlStat, b: UrlStat, c: UrlStat)
    requires b.timeSum < a.timeSum < c.timeSum
    ensures Rank([a, b, c]) == [c, a, b]
  {
    assert [a, b, c][1..] == [b, c];
    assert [b, c][1..] == [c];
    assert [c][1..] == [];
    assert Rank([c]) == [c];
    assert !RanksNotAfter(b, c);
    assert InsertRow(b, [c]) == [c] + InsertRow(b, []);
    assert Rank([b, c]) == [c, b];
    assert InsertRow(a, [b]) == [a, b];
    assert InsertRow(a, [c, b]) == [c, a, b];
  }

  /**
   * The ordered report of two rows keeps `/b` and `/a`, heaviest first, and
   * leaves out only lighter rows.
   */
  lemma RankedCutExample()
    ensures Listed(ThreeUrls) && RankedStatisticsSpec(ThreeUrls, 2).Success?
    ensures var rows := RankedStatisticsSpec(ThreeUrls, 2).value;
      var all := GetStatisticsSpec(ThreeUrls, 3).value;
      && |rows| == 2 && rows[0].url == "/b" && rows[1].url == "/a"
      && rows[0].timeSum >= rows[1].timeSum
      && forall row :: row in multiset(all) - multiset(rows) ==> rows[1].timeSum >= row.timeSum
  {
    ThreeUrlsRanked();
    RankedReport(ThreeUrls, 2);
  }

  /** The ordered report of two rows is the row of `/b` and then the row of `/a`. */
  lemma ThreeUrlsRanked()
    ensures Listed(ThreeUrls) && GetStatisticsSpec(ThreeUrls, 3).Success?
    ensures var all := GetStatisticsSpec(ThreeUrls, 3).value;
      && |all| == 3 && all[2].url == "/b" && all[0].url == "/a"
      && RankedStatisticsSpec(ThreeUrls, 2) == Success([all[2], all[0]])
  {
    ThreeUrlsSucceed(3);
    var all := GetStatisticsSpec(ThreeUrls, 3).value;
    StatisticsRows(ThreeUrls, 3);
    assert all[0].timeSum == 5.0 && all[1].timeSum == 1.0 && all[2].timeSum == 50.0;
    assert all == [all[0], all[1], all[2]];
    RankThree(all[0], all[1], all[2]);
    assert |ThreeUrls.urls| == 3;
    assert Truncate(Rank(all), 2) == [all[2], all[0], all[1]][..2] == [all[2], all[0]];
  }
}
