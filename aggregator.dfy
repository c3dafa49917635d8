/**
 * `get_log_records`: every line of the log goes through `process_line`; the
 * lines that match are grouped by URL into lists of request times, in file
 * order, and the share of lines that do not match is compared with the
 * error limit.
 *
 * The lines are a parameter (opening the file, plain or gzip, is I/O).  The
 * method `GetLogRecords` is the loop with the evidently intended handling of
 * a line that does not match (it counts as an error) and of an empty log (no
 * error).  `GetLogRecordsAsWritten` is the loop as the source writes it, kept
 * to show where the two differ.
 */
module Aggregator {
  import opened Results
  import opened LineParser

  /**
   * `dict_url`: the URLs in the order they were first seen, and the request
   * times of each URL.
   */
  datatype Grouping = Grouping(urls: seq<string>, times: map<string, seq<nat>>)

  const Empty := Grouping([], map[])

  /** No URL twice, the keys are exactly the URLs, and no list is empty. */
  ghost predicate Valid(g: Grouping) {
    && (forall i, j :: 0 <= i < j < |g.urls| ==> g.urls[i] != g.urls[j])
    && (forall u :: u in g.times <==> u in g.urls)
    && (forall u :: u in g.times ==> g.times[u] != [])
  }

  /** `dict_url[url].append(request_time)` */
  function Add(g: Grouping, s: Sample): Grouping {
    if s.url in g.times then Grouping(g.urls, g.times[s.url := g.times[s.url] + [s.millis]])
    else Grouping(g.urls + [s.url], g.times[s.url := [s.millis]])
  }

  /** The samples appended one after another to an empty grouping. */
  function Group(samples: seq<Sample>): Grouping {
    if samples == [] then Empty
    else Add(Group(samples[..|samples| - 1]), samples[|samples| - 1])
  }

  /** What `process_line` makes of each line. */
  function Outcomes(lines: seq<string>): seq<Option<Sample>> {
    seq(|lines|, i requires 0 <= i < |lines| => ProcessLine(lines[i]))
  }

  /** The samples of the lines that match, in file order. */
  function Samples(outcomes: seq<Option<Sample>>): seq<Sample> {
    if outcomes == [] then []
    else
      var earlier := Samples(outcomes[..|outcomes| - 1]);
      match outcomes[|outcomes| - 1]
      case None => earlier
      case Some(s) => earlier + [s]
  }

  /** How many lines do not match. */
  function Errors(outcomes: seq<Option<Sample>>): nat {
    if outcomes == [] then 0
    else Errors(outcomes[..|outcomes| - 1]) + (if outcomes[|outcomes| - 1].None? then 1 else 0)
  }

  /** The share of lines that do not match. */
  function ErrorRate(errors: nat, records: nat): real
    requires records > 0
  {
    errors as real / records as real
  }

  datatype AggregateError =
    | ErrorRateExceeded(limit: real) // the `Exception` raised when the error share is too high
    | TypeError                      // unpacking the `None` of a line that does not match
    | ZeroDivisionError              // `errors / records` with no records

  /**
   * What `get_log_records` evidently intends to return for `lines`: an empty
   * log has nothing to refuse, whatever the limit.
   */
  function Aggregate(lines: seq<string>, errorLimit: real): Result<Grouping, AggregateError> {
    var outcomes := Outcomes(lines);
    if |lines| > 0 && ErrorRate(Errors(outcomes), |lines|) > errorLimit then Failure(ErrorRateExceeded(errorLimit))
    else Success(Group(Samples(outcomes)))
  }

  /** The loop of `get_log_records`, with a line that does not match counted as an error. */
  method GetLogRecords(lines: seq<string>, errorLimit: real)
    returns (r: Result<Grouping, AggregateError>)
    ensures r == Aggregate(lines, errorLimit)
  {
    var errors := 0;
    var records := 0;
    var urls: seq<string> := [];
    var times: map<string, seq<nat>> := map[];
    ghost var outcomes := Outcomes(lines);
    for i := 0 to |lines|
      invariant records == i
      invariant errors == Errors(outcomes[..i])
      invariant Grouping(urls, times) == Group(Samples(outcomes[..i]))
    {
      records := records + 1;
      var outcome := ProcessLine(lines[i]);
      NextOutcome(outcomes, i);
      match outcome
      case None =>
        errors := errors + 1;
      case Some(s) =>
        if s.url in times {
          times := times[s.url := times[s.url] + [s.millis]];
        } else {
          urls := urls + [s.url];
          times := times[s.url := [s.millis]];
        }
    }
    assert outcomes[..|lines|] == outcomes;
    if records > 0 && ErrorRate(errors, records) > errorLimit {
      r := Failure(ErrorRateExceeded(errorLimit));
    } else {
      r := Success(Grouping(urls, times));
    }
  }

  /** One more line: an error, or one more sample appended to the grouping. */
  lemma NextOutcome(outcomes: seq<Option<Sample>>, i: nat)
    requires i < |outcomes|
    ensures outcomes[i].None? ==>
      && Errors(outcomes[..i + 1]) == Errors(outcomes[..i]) + 1
      && Samples(outcomes[..i + 1]) == Samples(outcomes[..i])
    ensures outcomes[i].Some? ==>
      && Errors(outcomes[..i + 1]) == Errors(outcomes[..i])
      && Group(Samples(outcomes[..i + 1])) == Add(Group(Samples(outcomes[..i])), outcomes[i].value)
  {
    assert outcomes[..i + 1][..i] == outcomes[..i];
    if outcomes[i].Some? {
      var samples := Samples(outcomes[..i]) + [outcomes[i].value];
      assert samples[..|samples| - 1] == Samples(outcomes[..i]);
    }
  }

  // ---------------------------------------------------------------------
  // What the grouping holds
  // ---------------------------------------------------------------------

  /** Every line is either an error or a sample. */
  lemma {:induction false} ErrorsAndSamples(outcomes: seq<Option<Sample>>)
    ensures Errors(outcomes) + |Samples(outcomes)| == |outcomes|
    decreases |outcomes|
  {
    if outcomes != [] {
      ErrorsAndSamples(outcomes[..|outcomes| - 1]);
    }
  }

  /** The samples are exactly the results of the lines that match. */
  lemma {:induction false} SamplesAreMatches(outcomes: seq<Option<Sample>>, s: Sample)
    ensures s in Samples(outcomes) <==> Some(s) in outcomes
    decreases |outcomes|
  {
    if outcomes != [] {
      var init := outcomes[..|outcomes| - 1];
      SamplesAreMatches(init, s);
      assert outcomes == init + [outcomes[|outcomes| - 1]];
    }
  }

  lemma AddValid(g: Grouping, s: Sample)
    requires Valid(g)
    ensures Valid(Add(g, s))
  {
  }

  lemma {:induction false} GroupValid(samples: seq<Sample>)
    ensures Valid(Group(samples))
    decreases |samples|
  {
    if samples != [] {
      GroupValid(samples[..|samples| - 1]);
      AddValid(Group(samples[..|samples| - 1]), samples[|samples| - 1]);
    }
  }

  /** The position of the first sample with URL `u`, or `|samples|` when there is none. */
  function FirstAt(samples: seq<Sample>, u: string): (k: nat)
    ensures k <= |samples|
    ensures forall q :: 0 <= q < k ==> samples[q].url != u
    ensures k < |samples| ==> samples[k].url == u
  {
    if samples == [] then 0
    else if samples[0].url == u then 0
    else
      var k := 1 + FirstAt(samples[1..], u);
      assert forall q :: 1 <= q < k ==> samples[q] == samples[1..][q - 1];
      k
  }

  /** A sample appended at the end leaves the first position of an earlier URL where it was. */
  lemma FirstAtAppend(init: seq<Sample>, s: Sample, u: string)
    ensures FirstAt(init, u) < |init| ==> FirstAt(init + [s], u) == FirstAt(init, u)
    ensures FirstAt(init, u) == |init| && s.url == u ==> FirstAt(init + [s], u) == |init|
  {
    var samples := init + [s];
    var k0 := FirstAt(init, u);
    assert forall q :: 0 <= q < k0 ==> samples[q] == init[q];
    if k0 < |init| {
      assert samples[k0] == init[k0];
    } else if s.url == u {
      assert samples[|init|] == s;
    }
  }

  /**
   * `urls` lists the URL of every sample, each in the order of the first
   * sample that has it.
   */
  ghost predicate InFirstSeenOrder(samples: seq<Sample>, urls: seq<string>) {
    && (forall q :: 0 <= q < |samples| ==> samples[q].url in urls)
    && (forall i :: 0 <= i < |urls| ==> FirstAt(samples, urls[i]) < |samples|)
    && (forall i, j :: 0 <= i < j < |urls| ==> FirstAt(samples, urls[i]) < FirstAt(samples, urls[j]))
  }

  /** URLs listed in order of first appearance stay so when one more sample comes. */
  lemma FirstSeenKept(init: seq<Sample>, s: Sample, urls: seq<string>)
    requires forall i :: 0 <= i < |urls| ==> FirstAt(init, urls[i]) < |init|
    requires forall i, j :: 0 <= i < j < |urls| ==> FirstAt(init, urls[i]) < FirstAt(init, urls[j])
    ensures forall i :: 0 <= i < |urls| ==> FirstAt(init + [s], urls[i]) < |init|
    ensures forall i, j :: 0 <= i < j < |urls| ==> FirstAt(init + [s], urls[i]) < FirstAt(init + [s], urls[j])
  {
    forall i | 0 <= i < |urls| ensures FirstAt(init + [s], urls[i]) == FirstAt(init, urls[i]) {
      FirstAtAppend(init, s, urls[i]);
    }
  }

  /** A URL first seen after every listed one may be listed after them. */
  lemma FirstSeenLater(samples: seq<Sample>, urls: seq<string>, u: string)
    requires forall i, j :: 0 <= i < j < |urls| ==> FirstAt(samples, urls[i]) < FirstAt(samples, urls[j])
    requires forall i :: 0 <= i < |urls| ==> FirstAt(samples, urls[i]) < FirstAt(samples, u)
    ensures forall i, j :: 0 <= i < j < |urls + [u]| ==>
      FirstAt(samples, (urls + [u])[i]) < FirstAt(samples, (urls + [u])[j])
  {
    forall i, j | 0 <= i < j < |urls + [u]|
      ensures FirstAt(samples, (urls + [u])[i]) < FirstAt(samples, (urls + [u])[j])
    {
      assert (urls + [u])[i] == urls[i];
      if j < |urls| {
        assert (urls + [u])[j] == urls[j];
      }
    }
  }

  lemma AppendCovered(init: seq<Sample>, s: Sample, urls: seq<string>)
    requires forall q :: 0 <= q < |init| ==> init[q].url in urls
    requires s.url in urls
    ensures forall q :: 0 <= q < |init + [s]| ==> (init + [s])[q].url in urls
  {
    forall q | 0 <= q < |init + [s]| ensures (init + [s])[q].url in urls {
      if q < |init| { assert (init + [s])[q] == init[q]; }
    }
  }

  /** One more sample keeps the URLs in the order they were first seen. */
  lemma FirstSeenStep(init: seq<Sample>, s: Sample, g: Grouping)
    requires s.url in g.times <==> s.url in g.urls
    requires InFirstSeenOrder(init, g.urls)
    ensures InFirstSeenOrder(init + [s], Add(g, s).urls)
  {
    var urls := Add(g, s).urls;
    FirstSeenKept(init, s, g.urls);
    assert forall q :: 0 <= q < |init| ==> init[q].url in urls;
    AppendCovered(init, s, urls);
    if s.url !in g.times {
      FirstAtAppend(init, s, s.url);
      FirstSeenLater(init + [s], g.urls, s.url);
    }
  }

  /**
   * `dict_url` iterates in insertion order: the grouping lists the URL of
   * every sample, each once, in the order of the first sample that has it.
   */
  lemma {:induction false} GroupFirstSeen(samples: seq<Sample>)
    ensures InFirstSeenOrder(samples, Group(samples).urls)
    decreases |samples|
  {
    if samples != [] {
      var init := samples[..|samples| - 1];
      var s := samples[|samples| - 1];
      GroupFirstSeen(init);
      GroupValid(init);
      FirstSeenStep(init, s, Group(init));
      assert samples == init + [s];
    }
  }

  /** The request times of the samples with URL `u`, in order. */
  function TimesOf(samples: seq<Sample>, u: string): seq<nat> {
    if samples == [] then []
    else
      var s := samples[|samples| - 1];
      TimesOf(samples[..|samples| - 1], u) + (if s.url == u then [s.millis] else [])
  }

  /**
   * A URL is a key exactly when some sample has it, and its list holds the
   * times of those samples in the order they came.
   */
  lemma {:induction false} GroupTimes(samples: seq<Sample>, u: string)
    ensures u in Group(samples).times <==> TimesOf(samples, u) != []
    ensures u in Group(samples).times ==> Group(samples).times[u] == TimesOf(samples, u)
    decreases |samples|
  {
    if samples != [] {
      GroupTimes(samples[..|samples| - 1], u);
    }
  }

  /** How many times the lists of `urls` hold between them. */
  function Total(urls: seq<string>, times: map<string, seq<nat>>): nat {
    if urls == [] then 0
    else
      var u := urls[|urls| - 1];
      Total(urls[..|urls| - 1], times) + (if u in times then |times[u]| else 0)
  }

  /** Lengthening the list of a URL listed once lengthens the total by as much. */
  lemma {:induction false} TotalUpdate(urls: seq<string>, times: map<string, seq<nat>>, u: string, v: seq<nat>)
    requires u in times
    requires forall i, j :: 0 <= i < j < |urls| ==> urls[i] != urls[j]
    ensures u in urls ==> Total(urls, times[u := v]) + |times[u]| == Total(urls, times) + |v|
    ensures u !in urls ==> Total(urls, times[u := v]) == Total(urls, times)
    decreases |urls|
  {
    if urls != [] {
      var init := urls[..|urls| - 1];
      TotalUpdate(init, times, u, v);
      if urls[|urls| - 1] == u {
        assert u !in init by {
          forall i | 0 <= i < |init| ensures init[i] != u {
            assert init[i] == urls[i];
          }
        }
      }
    }
  }

  lemma {:induction false} TotalFresh(urls: seq<string>, times: map<string, seq<nat>>, u: string, v: seq<nat>)
    requires u !in urls
    ensures Total(urls, times[u := v]) == Total(urls, times)
    decreases |urls|
  {
    if urls != [] {
      TotalFresh(urls[..|urls| - 1], times, u, v);
    }
  }

  /** The lists hold every sample once: no time is lost or counted twice. */
  lemma {:induction false} GroupTotal(samples: seq<Sample>)
    ensures Total(Group(samples).urls, Group(samples).times) == |samples|
    decreases |samples|
  {
    if samples != [] {
      var init := samples[..|samples| - 1];
      var s := samples[|samples| - 1];
      var g := Group(init);
      GroupTotal(init);
      GroupValid(init);
      if s.url in g.times {
        TotalUpdate(g.urls, g.times, s.url, g.times[s.url] + [s.millis]);
      } else {
        TotalFresh(g.urls, g.times, s.url, [s.millis]);
        var times' := g.times[s.url := [s.millis]];
        assert (g.urls + [s.url])[..|g.urls|] == g.urls;
      }
    }
  }

  /** Every URL in the grouping is the href of a line that matched. */
  lemma GroupUrlsAreHrefs(lines: seq<string>, u: string)
    requires u in Group(Samples(Outcomes(lines))).times
    ensures exists i :: 0 <= i < |lines| && ProcessLine(lines[i]).Some? && ProcessLine(lines[i]).value.url == u
  {
    var samples := Samples(Outcomes(lines));
    GroupTimes(samples, u);
    var k := UrlWitness(samples, u);
    SamplesAreMatches(Outcomes(lines), samples[k]);
  }

  /** A sample with URL `u`, when `u` has times. */
  lemma {:induction false} UrlWitness(samples: seq<Sample>, u: string) returns (k: nat)
    requires TimesOf(samples, u) != []
    ensures k < |samples| && samples[k].url == u
    decreases |samples|
  {
    var init := samples[..|samples| - 1];
    if samples[|samples| - 1].url == u {
      k := |samples| - 1;
    } else {
      k := UrlWitness(init, u);
    }
  }

  /** The log is refused exactly when the error share is above the limit. */
  lemma AggregateFailsIff(lines: seq<string>, errorLimit: real)
    ensures Aggregate(lines, errorLimit).Failure? <==>
      |lines| > 0 && ErrorRate(Errors(Outcomes(lines)), |lines|) > errorLimit
    ensures Aggregate(lines, errorLimit).Success? ==> Valid(Aggregate(lines, errorLimit).value)
  {
    GroupValid(Samples(Outcomes(lines)));
  }

  // ---------------------------------------------------------------------
  // The loop as written
  // ---------------------------------------------------------------------

  /**
   * The line loop as the source writes it: the result of `process_line` is
   * unpacked into `url, request_time` before it is tested, and a line counts
   * as an error only when both are false.
   */
  function RunAsWritten(outcomes: seq<Option<Sample>>): Result<(nat, Grouping), AggregateError> {
    if outcomes == [] then Success((0, Empty))
    else
      match RunAsWritten(outcomes[..|outcomes| - 1])
      case Failure(e) => Failure(e)
      case Success((errors, g)) =>
        match outcomes[|outcomes| - 1]
        case None => Failure(TypeError)
        case Some(s) =>
          if s.url == [] && s.millis == 0 then Success((errors + 1, g))
          else Success((errors, Add(g, s)))
  }

  /** `get_log_records` as written: `errors / records` is a true division. */
  function GetLogRecordsAsWritten(lines: seq<string>, errorLimit: real): Result<Grouping, AggregateError> {
    match RunAsWritten(Outcomes(lines))
    case Failure(e) => Failure(e)
    case Success((errors, g)) =>
      if |lines| == 0 then Failure(ZeroDivisionError)
      else if ErrorRate(errors, |lines|) > errorLimit then Failure(ErrorRateExceeded(errorLimit))
      else Success(g)
  }

  /**
   * As written, a line that does not match stops the run with a `TypeError`,
   * and otherwise no line is ever counted as an error: the URL of a match is
   * never empty.
   */
  lemma {:induction false} RunAsWrittenOutcome(outcomes: seq<Option<Sample>>)
    requires forall i :: 0 <= i < |outcomes| && outcomes[i].Some? ==> outcomes[i].value.url != []
    ensures RunAsWritten(outcomes).Failure? <==> Errors(outcomes) > 0
    ensures RunAsWritten(outcomes).Failure? ==> RunAsWritten(outcomes).error == TypeError
    ensures RunAsWritten(outcomes).Success? ==> RunAsWritten(outcomes).value == (0, Group(Samples(outcomes)))
    decreases |outcomes|
  {
    if outcomes != [] {
      RunAsWrittenOutcome(outcomes[..|outcomes| - 1]);
    }
  }

  /** The URL of every line that matches is a non-empty `\S+`. */
  lemma MatchedUrlsNonEmpty(lines: seq<string>)
    ensures forall i :: 0 <= i < |lines| && Outcomes(lines)[i].Some? ==> Outcomes(lines)[i].value.url != []
  {
  }

  /** A log with a line that does not match is refused as written, whatever the limit. */
  lemma AsWrittenTypeError(lines: seq<string>, errorLimit: real)
    requires Errors(Outcomes(lines)) > 0
    ensures GetLogRecordsAsWritten(lines, errorLimit) == Failure(TypeError)
  {
    MatchedUrlsNonEmpty(lines);
    RunAsWrittenOutcome(Outcomes(lines));
  }

  /** When every line of a non-empty log matches, the two versions agree. */
  lemma AsWrittenAgrees(lines: seq<string>, errorLimit: real)
    requires lines != [] && Errors(Outcomes(lines)) == 0
    ensures GetLogRecordsAsWritten(lines, errorLimit) == Aggregate(lines, errorLimit)
  {
    MatchedUrlsNonEmpty(lines);
    RunAsWrittenOutcome(Outcomes(lines));
  }

  /**
   * One line that does not match: refused with `TypeError` as written,
   * whatever the limit; as intended, an error share of 1 that only a limit
   * below 1 refuses.
   */
  lemma UnmatchedLineExample(errorLimit: real)
    ensures GetLogRecordsAsWritten(["abcde"], errorLimit) == Failure(TypeError)
    ensures Aggregate(["abcde"], errorLimit) ==
      if errorLimit < 1.0 then Failure(ErrorRateExceeded(errorLimit)) else Success(Empty)
  {
    ProcessIncorrectLine();
    assert Outcomes(["abcde"]) == [None];
    assert Outcomes(["abcde"])[..0] == [];
  }

  /** An empty log: a division by zero as written, an empty grouping as intended, whatever the limit. */
  lemma EmptyLogExample(errorLimit: real)
    ensures GetLogRecordsAsWritten([], errorLimit) == Failure(ZeroDivisionError)
    ensures Aggregate([], errorLimit) == Success(Empty)
  {
  }
}
