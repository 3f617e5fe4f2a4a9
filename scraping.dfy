/** The scraper itself: the per-page extraction of numeric and text fields,
    the deal filter applied to a page, the notification line, and the worker
    loop that drains the queue of URLs into the result list.

    Fetching a page and walking its DOM are left abstract: `fetch` maps a URL
    to the text of the page, or to None when the request raises, and `locate`
    maps that text to the raw text fragments of the fields, or to None when an
    expected element is missing. */
module Scraping {
  import opened Wrappers
  import Text
  import Numbers
  import Deal
  import WorkQueue

  /** The body text that marks a page for a release that does not exist. */
  const NotFoundMarker: string := "404! Oh no!"

  /** The text fragments the DOM traversal reads, after the decorative spans
      have been removed: the want and have counters, the seller's country, the
      lowest and median price cells, the condition label, and the price text of
      every listing. */
  datatype RawFields = RawFields(
    wantText: string,
    haveText: string,
    countryText: string,
    leastText: string,
    conditionText: string,
    medianText: string,
    priceTexts: seq<string>)

  /** The fields extracted from one page. */
  datatype PageRecord = PageRecord(
    want: real,
    have: real,
    country: string,
    least: real,
    median: real,
    condition: string,
    prices: seq<real>)

  /** One row of the result list: url, min_price, have/want, country,
      item_condition. */
  datatype Row = Row(url: string, minPrice: real, haveWant: real, country: string, condition: string)

  /** The fields of the line `notify` prints. */
  datatype Notice = Notice(url: string, conditionCode: string, minPrice: real, ratio: real, country: string)

  /** What one loop iteration does with its URL. `Crashed` is an exception
      raised outside the `try`, which ends the worker. */
  datatype Outcome = Skipped | Matched(notice: Notice, row: Row) | Crashed

  /** The two ways of passing the counters to `notify`: as its parameters are
      declared (have, then want) or as the call at line 118 passes them (want,
      then have). */
  datatype CallOrder = AsDeclared | AsWritten

  /** `requests.get(url).text`: the text of the page, or None when the request
      raises. */
  type Fetcher = string -> Option<string>

  /** The DOM traversal of the `try` block: the raw fields of a page, or None
      when an expected element is missing. */
  type Locator = string -> Option<RawFields>

  // ---------------------------------------------------------------------------
  // Extraction

  /** The list comprehension of `get_float` over the price texts: every text
      must parse, or the page fails. */
  function GetFloats(texts: seq<string>): (r: Option<seq<real>>)
    ensures r.Some? <==> forall i :: 0 <= i < |texts| ==> Numbers.GetFloat(texts[i]).Some?
    ensures r.Some? ==> |r.value| == |texts|
    ensures r.Some? ==> forall i :: 0 <= i < |texts| ==> Numbers.GetFloat(texts[i]) == Some(r.value[i])
  {
    if texts == [] then Some([])
    else
      match Numbers.GetFloat(texts[0])
      case None => None
      case Some(x) =>
        match GetFloats(texts[1..])
        case None => None
        case Some(xs) => Some([x] + xs)
  }

  /** The field conversions of the `try` block: want, have and prices are
      parsed from the raw text, least and median after the clean-up, country and
      condition are cleaned. Any parse failure, or an empty price list (on which
      `min` raises at line 110), drops the page. */
  function Extract(raw: RawFields): (r: Option<PageRecord>)
    ensures r.Some? ==> |r.value.prices| == |raw.priceTexts| > 0
  {
    var want :- Numbers.GetFloat(raw.wantText);
    var have :- Numbers.GetFloat(raw.haveText);
    var least :- Numbers.GetFloat(Text.Clean(raw.leastText));
    var median :- Numbers.GetFloat(Text.Clean(raw.medianText));
    var prices :- GetFloats(raw.priceTexts);
    if |prices| == 0 then None
    else Some(PageRecord(want, have, Text.Clean(raw.countryText), least, median, Text.Clean(raw.conditionText), prices))
  }

  /** The whole extraction of a page: the abstract DOM traversal, then the
      field conversions. */
  function PageOf(body: string, locate: Locator): (r: Option<PageRecord>)
    ensures r.Some? ==> |r.value.prices| > 0
  {
    match locate(body)
    case None => None
    case Some(raw) => Extract(raw)
  }

  lemma CleanKeepsDigits(s: string)
    ensures Numbers.HasDigit(Text.Clean(s)) <==> Numbers.HasDigit(s)
  {
    Numbers.RemoveKeepsDigits(s, ' ');
    Numbers.RemoveKeepsDigits(Text.Remove(s, ' '), '\n');
  }

  /** Extraction fails exactly when one of the numeric texts holds no digit
      or there is no listing price. */
  lemma ExtractFailsIff(raw: RawFields)
    ensures Extract(raw).None? <==>
      || !Numbers.HasDigit(raw.wantText)
      || !Numbers.HasDigit(raw.haveText)
      || !Numbers.HasDigit(raw.leastText)
      || !Numbers.HasDigit(raw.medianText)
      || |raw.priceTexts| == 0
      || exists i :: 0 <= i < |raw.priceTexts| && !Numbers.HasDigit(raw.priceTexts[i])
  {
    Numbers.GetFloatFailsIffNoDigit(raw.wantText);
    Numbers.GetFloatFailsIffNoDigit(raw.haveText);
    Numbers.GetFloatFailsIffNoDigit(Text.Clean(raw.leastText));
    Numbers.GetFloatFailsIffNoDigit(Text.Clean(raw.medianText));
    CleanKeepsDigits(raw.leastText);
    CleanKeepsDigits(raw.medianText);
    forall i | 0 <= i < |raw.priceTexts|
      ensures Numbers.GetFloat(raw.priceTexts[i]).None? <==> !Numbers.HasDigit(raw.priceTexts[i])
    {
      Numbers.GetFloatFailsIffNoDigit(raw.priceTexts[i]);
    }
  }

  // ---------------------------------------------------------------------------
  // Filter, row and notification

  /** `is_data_as_needed` applied to a record, as at line 117. */
  predicate IsDeal(rec: PageRecord)
    requires |rec.prices| > 0
  {
    Deal.IsDataAsNeeded(rec.want, rec.least, rec.median, rec.prices)
  }

  /** The row appended at line 119; the filter has made want positive. */
  function RowOf(url: string, rec: PageRecord): (r: Row)
    requires |rec.prices| > 0 && IsDeal(rec)
    ensures r.minPrice < rec.least && r.minPrice in rec.prices
    ensures r.haveWant * rec.want == rec.have
  {
    Row(url, Deal.Min(rec.prices), rec.have / rec.want, rec.country, rec.condition)
  }

  /** `notify(prices, url, have, want, country, item_condition)` as declared:
      the fields of its printed line, with the condition code sliced out of
      the condition label. None is the ZeroDivisionError that `have/want`
      raises when its `want` argument is 0. */
  function Notify(prices: seq<real>, url: string, have: real, want: real, country: string, condition: string): (r: Option<Notice>)
    requires |prices| > 0
    ensures r.None? <==> want == 0.0
    ensures r.Some? ==> r.value.ratio * want == have && r.value.minPrice == Deal.Min(prices)
  {
    if want == 0.0 then None
    else Some(Notice(url, Text.ConditionCode(condition), Deal.Min(prices), have / want, country))
  }

  /** The notification for a page, with the counters passed in the given order. */
  function NotifyPage(url: string, rec: PageRecord, order: CallOrder): Option<Notice>
    requires |rec.prices| > 0
  {
    match order
    case AsDeclared => Notify(rec.prices, url, rec.have, rec.want, rec.country, rec.condition)
    case AsWritten => Notify(rec.prices, url, rec.want, rec.have, rec.country, rec.condition)
  }

  /** The filter, notification and row of an extracted page. */
  function Judge(url: string, rec: PageRecord, order: CallOrder): Outcome
    requires |rec.prices| > 0
  {
    if !IsDeal(rec) then Skipped
    else
      match NotifyPage(url, rec, order)
      case None => Crashed
      case Some(n) => Matched(n, RowOf(url, rec))
  }

  /** One iteration of the worker loop for `url`: fetch (a transport error
      raises outside the `try` and ends the worker), skip a not-found page,
      extract (a failure skips the page), filter, notify, append. */
  function Step(url: string, fetch: Fetcher, locate: Locator, order: CallOrder): Outcome {
    match fetch(url)
    case None => Crashed
    case Some(body) =>
      if Text.Contains(body, NotFoundMarker) then Skipped
      else
        match PageOf(body, locate)
        case None => Skipped
        case Some(rec) => Judge(url, rec, order)
  }

  /** The iterations of the scraper's worker loop, as a function from a URL
      to what its iteration does. */
  function Worker(fetch: Fetcher, locate: Locator, order: CallOrder): string -> Outcome {
    url => Step(url, fetch, locate, order)
  }

  /** `step` is the scraper's iteration `Worker(fetch, locate, order)`,
      stated URL by URL: the methods that run the loop take it as a ghost
      parameter, so that their proofs look inside `Step` only for the URLs an
      iteration actually visits. */
  ghost predicate IsWorker(step: string -> Outcome, fetch: Fetcher, locate: Locator, order: CallOrder) {
    forall u {:trigger Step(u, fetch, locate, order)} :: step(u) == Step(u, fetch, locate, order)
  }

  lemma WorkerIsWorker(fetch: Fetcher, locate: Locator, order: CallOrder)
    ensures IsWorker(Worker(fetch, locate, order), fetch, locate, order)
  {
  }

  /** The row an iteration appends, if any. */
  function RowsOf(o: Outcome): seq<Row> {
    if o.Matched? then [o.row] else []
  }

  /** The line an iteration prints, if any. */
  function NoticesOf(o: Outcome): seq<Notice> {
    if o.Matched? then [o.notice] else []
  }

  // ---------------------------------------------------------------------------
  // One worker's pass over the queue, for any iteration `step`

  /** What a worker, or a number of workers, have appended, printed and left
      queued. */
  datatype Drained = Drained(rows: seq<Row>, lines: seq<Notice>, rest: seq<string>)

  /** One worker taking `urls` off the queue, in queue order: the rows it
      appends and the lines it prints up to the first iteration that raises,
      and the queue it leaves behind (empty when it drains the queue,
      otherwise the URLs after the one whose iteration raised). */
  function Drain(urls: seq<string>, step: string -> Outcome): Drained {
    if urls == [] then Drained([], [], [])
    else
      var o := step(urls[0]);
      if o.Crashed? then Drained([], [], urls[1..])
      else
        var d := Drain(urls[1..], step);
        Drained(RowsOf(o) + d.rows, NoticesOf(o) + d.lines, d.rest)
  }

  /** The rows one worker appends. */
  function Harvest(urls: seq<string>, step: string -> Outcome): seq<Row> {
    Drain(urls, step).rows
  }

  /** The lines one worker prints. */
  function Notices(urls: seq<string>, step: string -> Outcome): seq<Notice> {
    Drain(urls, step).lines
  }

  /** The queue one worker leaves behind. */
  function Remaining(urls: seq<string>, step: string -> Outcome): seq<string> {
    Drain(urls, step).rest
  }

  /** No iteration over `urls` raises. */
  ghost predicate Survives(urls: seq<string>, step: string -> Outcome) {
    forall j :: 0 <= j < |urls| ==> !step(urls[j]).Crashed?
  }

  /** Unfolds the three definitions by one iteration. It restates them; it
      exists so that callers do not unfold them themselves, which keeps their
      proofs cheap. */
  lemma HarvestCons(urls: seq<string>, step: string -> Outcome)
    requires urls != []
    ensures var o := step(urls[0]);
      && Harvest([], step) == [] && Notices([], step) == [] && Remaining([], step) == []
      && Harvest(urls, step) == (if o.Crashed? then [] else RowsOf(o) + Harvest(urls[1..], step))
      && Notices(urls, step) == (if o.Crashed? then [] else NoticesOf(o) + Notices(urls[1..], step))
      && Remaining(urls, step) == (if o.Crashed? then urls[1..] else Remaining(urls[1..], step))
  {
  }

  /** Associativity of concatenation. Dafny knows it already; calling it
      where a proof needs it keeps that proof cheap. */
  lemma AppendAssoc<T>(a: seq<T>, b: seq<T>, c: seq<T>)
    ensures a + (b + c) == (a + b) + c
  {
  }

  /** The loop's accumulators after one more iteration: what was appended so
      far, then this page's row or line, then those of the rest of the queue
      if the iteration did not raise. */
  lemma AccumulateStep(rows: seq<Row>, lines: seq<Notice>, urls: seq<string>, step: string -> Outcome)
    requires urls != []
    ensures var o := step(urls[0]);
      !o.Crashed? ==>
        && rows + Harvest(urls, step) == (rows + RowsOf(o)) + Harvest(urls[1..], step)
        && lines + Notices(urls, step) == (lines + NoticesOf(o)) + Notices(urls[1..], step)
        && Remaining(urls, step) == Remaining(urls[1..], step)
    ensures var o := step(urls[0]);
      o.Crashed? ==>
        && rows + Harvest(urls, step) == rows + RowsOf(o)
        && lines + Notices(urls, step) == lines + NoticesOf(o)
        && Remaining(urls, step) == urls[1..]
  {
    var o := step(urls[0]);
    var rest := urls[1..];
    HarvestCons(urls, step);
    if !o.Crashed? {
      AppendAssoc(rows, RowsOf(o), Harvest(rest, step));
      AppendAssoc(lines, NoticesOf(o), Notices(rest, step));
    } else {
      assert RowsOf(o) == [] && NoticesOf(o) == [];
    }
  }

  /** A worker that survives a queue drains it. */
  lemma {:induction false} SurvivorDrainsQueue(urls: seq<string>, step: string -> Outcome)
    requires Survives(urls, step)
    ensures Remaining(urls, step) == []
  {
    if urls != [] {
      assert !step(urls[0]).Crashed?;
      assert forall j :: 0 <= j < |urls[1..]| ==> urls[1..][j] == urls[j + 1];
      SurvivorDrainsQueue(urls[1..], step);
    }
  }

  /** Each page is processed on its own, up to the first one that raises: the
      rows and lines for a concatenated queue are those of its first part,
      then, if no iteration of the first part raised, those of the second;
      the queue left behind is the second part's, or the first part's
      followed by the whole second part. */
  lemma {:induction false} HarvestAppend(a: seq<string>, b: seq<string>, step: string -> Outcome)
    ensures Harvest(a + b, step) == Harvest(a, step) + (if Survives(a, step) then Harvest(b, step) else [])
    ensures Notices(a + b, step) == Notices(a, step) + (if Survives(a, step) then Notices(b, step) else [])
    ensures Remaining(a + b, step) == (if Survives(a, step) then Remaining(b, step) else Remaining(a, step) + b)
  {
    if a == [] {
      assert a + b == b;
    } else {
      var o := step(a[0]);
      assert (a + b)[0] == a[0];
      assert (a + b)[1..] == a[1..] + b;
      HarvestCons(a + b, step);
      HarvestCons(a, step);
      if o.Crashed? {
        assert !Survives(a, step);
      } else {
        HarvestAppend(a[1..], b, step);
        assert forall j :: 0 <= j < |a[1..]| ==> a[1..][j] == a[j + 1];
        assert Survives(a, step) <==> Survives(a[1..], step);
        AppendAssoc(RowsOf(o), Harvest(a[1..], step), if Survives(a, step) then Harvest(b, step) else []);
        AppendAssoc(NoticesOf(o), Notices(a[1..], step), if Survives(a, step) then Notices(b, step) else []);
      }
    }
  }

  /** The first iteration that raises ends the worker: it keeps the rows and
      lines of the pages before it and leaves the URLs after it queued. */
  lemma FirstCrashStopsWorker(urls: seq<string>, i: nat, step: string -> Outcome)
    requires i < |urls| && step(urls[i]).Crashed? && Survives(urls[..i], step)
    ensures Harvest(urls, step) == Harvest(urls[..i], step)
    ensures Notices(urls, step) == Notices(urls[..i], step)
    ensures Remaining(urls, step) == urls[i + 1..]
  {
    assert urls == urls[..i] + urls[i..];
    HarvestAppend(urls[..i], urls[i..], step);
    assert urls[i..][0] == urls[i] && urls[i..][1..] == urls[i + 1..];
    HarvestCons(urls[i..], step);
  }

  /** A skipped page (not found, failed extraction, or filtered out) adds no
      row and leaves the rows of the other pages as they are. */
  lemma SkippedPageIsIsolated(a: seq<string>, url: string, b: seq<string>, step: string -> Outcome)
    requires step(url) == Skipped
    ensures Harvest(a + [url] + b, step) == Harvest(a, step) + (if Survives(a, step) then Harvest(b, step) else [])
  {
    assert a + [url] + b == a + ([url] + b);
    HarvestAppend(a, [url] + b, step);
    assert ([url] + b)[0] == url && ([url] + b)[1..] == b;
    HarvestCons([url] + b, step);
  }

  /** Every row is the row of a matched iteration of a queued URL, and there
      are no more rows than URLs. */
  lemma {:induction false} HarvestRowsAreMatched(urls: seq<string>, step: string -> Outcome)
    ensures |Harvest(urls, step)| <= |urls|
    ensures forall r :: r in Harvest(urls, step) ==>
      exists i :: 0 <= i < |urls| && step(urls[i]).Matched? && step(urls[i]).row == r
  {
    if urls != [] {
      var o := step(urls[0]);
      HarvestCons(urls, step);
      HarvestRowsAreMatched(urls[1..], step);
      forall r | r in Harvest(urls, step)
        ensures exists i :: 0 <= i < |urls| && step(urls[i]).Matched? && step(urls[i]).row == r
      {
        if r in Harvest(urls[1..], step) {
          var i :| 0 <= i < |urls[1..]| && step(urls[1..][i]).Matched? && step(urls[1..][i]).row == r;
          assert urls[1..][i] == urls[i + 1];
        } else {
          assert o.Matched? && r == o.row;
        }
      }
    }
  }

  /** Conversely, a matched iteration that the worker reaches (no earlier
      iteration raised) has its row and its line in the result. */
  lemma MatchedIsHarvested(urls: seq<string>, i: nat, step: string -> Outcome)
    requires i < |urls| && Survives(urls[..i], step) && step(urls[i]).Matched?
    ensures step(urls[i]).row in Harvest(urls, step)
    ensures step(urls[i]).notice in Notices(urls, step)
  {
    assert urls == urls[..i] + urls[i..];
    HarvestAppend(urls[..i], urls[i..], step);
    assert urls[i..][0] == urls[i];
    HarvestCons(urls[i..], step);
  }

  /** A printed line and an appended row describe the same listing: the same
      URL, cheapest price and country, the condition code sliced out of the
      row's condition, and a ratio that is the row's have/want as declared,
      its reciprocal as written. */
  predicate Agrees(order: CallOrder, n: Notice, r: Row) {
    && n.url == r.url && n.minPrice == r.minPrice && n.country == r.country
    && n.conditionCode == Text.ConditionCode(r.condition)
    && match order
       case AsDeclared => n.ratio == r.haveWant
       case AsWritten => n.ratio * r.haveWant == 1.0
  }

  /** When every matched iteration prints a line that agrees with its row,
      there is one line per row and the k-th line agrees with the k-th row. */
  lemma {:induction false} NoticesPairWithRows(urls: seq<string>, step: string -> Outcome, order: CallOrder)
    requires forall j :: 0 <= j < |urls| && step(urls[j]).Matched? ==>
      Agrees(order, step(urls[j]).notice, step(urls[j]).row)
    ensures |Notices(urls, step)| == |Harvest(urls, step)|
    ensures forall k :: 0 <= k < |Harvest(urls, step)| ==> Agrees(order, Notices(urls, step)[k], Harvest(urls, step)[k])
  {
    if urls != [] {
      var o := step(urls[0]);
      HarvestCons(urls, step);
      if !o.Crashed? {
        assert forall j :: 0 <= j < |urls[1..]| ==> urls[1..][j] == urls[j + 1];
        NoticesPairWithRows(urls[1..], step, order);
        AgreeCons(order, o, Notices(urls[1..], step), Harvest(urls[1..], step));
      }
    }
  }

  /** Lines and rows that agree pairwise still do after one more iteration. */
  lemma AgreeCons(order: CallOrder, o: Outcome, ns: seq<Notice>, rs: seq<Row>)
    requires |ns| == |rs| && forall k :: 0 <= k < |rs| ==> Agrees(order, ns[k], rs[k])
    requires o.Matched? ==> Agrees(order, o.notice, o.row)
    ensures |NoticesOf(o) + ns| == |RowsOf(o) + rs|
    ensures forall k :: 0 <= k < |RowsOf(o) + rs| ==> Agrees(order, (NoticesOf(o) + ns)[k], (RowsOf(o) + rs)[k])
  {
    var d := |RowsOf(o)|;
    forall k | 0 <= k < |RowsOf(o) + rs|
      ensures Agrees(order, (NoticesOf(o) + ns)[k], (RowsOf(o) + rs)[k])
    {
      if k >= d {
        assert (NoticesOf(o) + ns)[k] == ns[k - d];
        assert (RowsOf(o) + rs)[k] == rs[k - d];
      }
    }
  }

  // ---------------------------------------------------------------------------
  // Several workers

  /** `threads = min(threads, qsize)` in `start_execution`. */
  function ClampWorkers(threads: int, queued: nat): (n: int)
    ensures n <= threads && n <= queued
    ensures n == threads || n == queued
  {
    if queued < threads then queued else threads
  }

  /** `k` workers run one after another over `urls`: the first drains what
      it can, and the others run on the queue it leaves behind. */
  function RunWorkers(k: nat, urls: seq<string>, step: string -> Outcome): Drained {
    if k == 0 then Drained([], [], urls)
    else
      var r := RunWorkers(k - 1, Remaining(urls, step), step);
      Drained(Harvest(urls, step) + r.rows, Notices(urls, step) + r.lines, r.rest)
  }

  /** Unfolds `RunWorkers` by one worker. It restates the definition; it
      exists so that the loop of `StartExecution` does not unfold it itself,
      which keeps that proof cheap. */
  lemma RunWorkersCons(k: nat, urls: seq<string>, step: string -> Outcome)
    requires k > 0
    ensures RunWorkers(0, urls, step) == Drained([], [], urls)
    ensures var r := RunWorkers(k - 1, Remaining(urls, step), step);
      RunWorkers(k, urls, step) == Drained(Harvest(urls, step) + r.rows, Notices(urls, step) + r.lines, r.rest)
  {
  }

  /** A worker always takes at least one URL off a non-empty queue. */
  lemma {:induction false} RemainingShrinks(urls: seq<string>, step: string -> Outcome)
    ensures |Remaining(urls, step)| <= |urls|
    ensures urls != [] ==> |Remaining(urls, step)| < |urls|
  {
    if urls != [] {
      RemainingShrinks(urls[1..], step);
    }
  }

  /** Every worker takes at least one URL until the queue is empty, so the
      `qsize` workers that the clamp allows when enough threads are requested
      always drain the queue, even when iterations raise. */
  lemma {:induction false} WorkersDrainQueue(k: nat, urls: seq<string>, step: string -> Outcome)
    ensures |RunWorkers(k, urls, step).rest| <= if k <= |urls| then |urls| - k else 0
  {
    if k > 0 {
      RemainingShrinks(urls, step);
      WorkersDrainQueue(k - 1, Remaining(urls, step), step);
    }
  }

  /** Workers started on an empty queue append and print nothing. */
  lemma {:induction false} WorkersOnEmptyQueue(k: nat, step: string -> Outcome)
    ensures RunWorkers(k, [], step) == Drained([], [], [])
  {
    if k > 0 {
      WorkersOnEmptyQueue(k - 1, step);
    }
  }

  /** When the first worker survives the whole queue, it drains it and the
      workers after it find it empty. */
  lemma SurvivingFirstWorkerDrains(k: nat, urls: seq<string>, step: string -> Outcome)
    requires k > 0 && Survives(urls, step)
    ensures RunWorkers(k, urls, step) == Drained(Harvest(urls, step), Notices(urls, step), [])
  {
    SurvivorDrainsQueue(urls, step);
    WorkersOnEmptyQueue(k - 1, step);
    assert Harvest(urls, step) + [] == Harvest(urls, step) && Notices(urls, step) + [] == Notices(urls, step);
  }

  // ---------------------------------------------------------------------------
  // Properties of one iteration

  /** The page of `url` was fetched, is not a not-found page, was extracted,
      passed the filter and has a have count of 0. */
  ghost predicate ZeroHaveDeal(url: string, fetch: Fetcher, locate: Locator) {
    && fetch(url).Some?
    && !Text.Contains(fetch(url).value, NotFoundMarker)
    && PageOf(fetch(url).value, locate).Some?
    && IsDeal(PageOf(fetch(url).value, locate).value)
    && PageOf(fetch(url).value, locate).value.have == 0.0
  }

  /** An iteration raises exactly when the request fails, or, with the
      counters passed as at line 118, when a deal has a have count of 0. */
  lemma CrashIff(url: string, fetch: Fetcher, locate: Locator, order: CallOrder)
    ensures Step(url, fetch, locate, order).Crashed? <==>
      fetch(url).None? || (order == AsWritten && ZeroHaveDeal(url, fetch, locate))
  {
  }

  /** With the counters passed as declared, an iteration raises only when the
      request fails: the filter guarantees want > 200, so `have/want` is
      defined. */
  lemma DeclaredCrashesOnlyOnFetchError(url: string, fetch: Fetcher, locate: Locator)
    ensures Step(url, fetch, locate, AsDeclared).Crashed? <==> fetch(url).None?
  {
    CrashIff(url, fetch, locate, AsDeclared);
  }

  /** A not-found page is skipped before any extraction is attempted,
      whatever the traversal would have found. */
  lemma NotFoundIsSkipped(url: string, fetch: Fetcher, locate: Locator, order: CallOrder)
    requires fetch(url).Some? && Text.Contains(fetch(url).value, NotFoundMarker)
    ensures Step(url, fetch, locate, order) == Skipped
  {
  }

  /** A fetched page that is not a not-found page is skipped when extraction
      fails, and judged on its record otherwise. */
  lemma StepOfFoundPage(url: string, fetch: Fetcher, locate: Locator, order: CallOrder)
    requires fetch(url).Some? && !Text.Contains(fetch(url).value, NotFoundMarker)
    ensures PageOf(fetch(url).value, locate).None? ==> Step(url, fetch, locate, order) == Skipped
    ensures PageOf(fetch(url).value, locate).Some? ==>
      Step(url, fetch, locate, order) == Judge(url, PageOf(fetch(url).value, locate).value, order)
  {
  }

  /** A fetched page whose numeric texts lack a digit, or that lists no price,
      is skipped. */
  lemma UnparsablePageIsSkipped(url: string, fetch: Fetcher, locate: Locator, raw: RawFields, order: CallOrder)
    requires fetch(url).Some? && locate(fetch(url).value) == Some(raw)
    requires !Numbers.HasDigit(raw.wantText) || !Numbers.HasDigit(raw.medianText) || |raw.priceTexts| == 0
    ensures Step(url, fetch, locate, order) == Skipped
  {
    ExtractFailsIff(raw);
  }

  /** row was produced for url by a fetched page that is not a not-found page,
      whose extraction succeeded and whose record passed the filter; its
      min_price is the cheapest listing and its ratio is have/want. */
  ghost predicate Promoted(url: string, fetch: Fetcher, locate: Locator, row: Row) {
    && fetch(url).Some?
    && !Text.Contains(fetch(url).value, NotFoundMarker)
    && PageOf(fetch(url).value, locate).Some?
    && var rec := PageOf(fetch(url).value, locate).value;
       && IsDeal(rec)
       && row.url == url
       && row.minPrice == Deal.Min(rec.prices)
       && rec.want > 0.0
       && row.haveWant == rec.have / rec.want
       && row.country == rec.country
       && row.condition == rec.condition
  }

  /** The row of a matched iteration was promoted. */
  lemma MatchedIsPromoted(url: string, fetch: Fetcher, locate: Locator, order: CallOrder)
    requires Step(url, fetch, locate, order).Matched?
    ensures Promoted(url, fetch, locate, Step(url, fetch, locate, order).row)
  {
    var rec := PageOf(fetch(url).value, locate).value;
    assert Step(url, fetch, locate, order).row == RowOf(url, rec);
  }

  /** With the counters passed as at line 118, a deal whose have count is 0
      makes `notify` divide by zero outside the `try`, so the worker dies
      before the row is appended; passed as declared, the same page yields its
      row. */
  lemma ZeroHaveCrashesAsWritten(url: string, fetch: Fetcher, locate: Locator)
    requires ZeroHaveDeal(url, fetch, locate)
    ensures Step(url, fetch, locate, AsWritten) == Crashed
    ensures Step(url, fetch, locate, AsDeclared).Matched?
  {
  }

  /** A record with a have count of 0 can pass the filter. */
  lemma ZeroHaveDealExists()
    ensures var rec := PageRecord(500.0, 0.0, "Germany", 20.0, 30.0, "VeryGoodPlus(VG+)", [10.0, 25.0]);
      IsDeal(rec) && NotifyPage("u", rec, AsWritten).None? && NotifyPage("u", rec, AsDeclared).Some?
  {
    assert [10.0, 25.0][1..] == [25.0];
  }

  /** Whenever the page is not a deal with a have count of 0, both call
      orders raise alike and append the same row; only the printed ratio
      differs (want/have instead of have/want). */
  lemma CallOrderOnlyMattersForZeroHave(url: string, fetch: Fetcher, locate: Locator)
    requires !ZeroHaveDeal(url, fetch, locate)
    ensures Step(url, fetch, locate, AsWritten).Crashed? <==> Step(url, fetch, locate, AsDeclared).Crashed?
    ensures Step(url, fetch, locate, AsWritten).Matched? <==> Step(url, fetch, locate, AsDeclared).Matched?
    ensures Step(url, fetch, locate, AsWritten).Matched? ==>
      Step(url, fetch, locate, AsWritten).row == Step(url, fetch, locate, AsDeclared).row
  {
  }

  lemma ReciprocalRatios(w: real, h: real)
    requires w != 0.0 && h != 0.0
    ensures (w / h) * (h / w) == 1.0
  {
  }

  /** The line and the row of a judged record agree. */
  lemma JudgeAgrees(url: string, rec: PageRecord, order: CallOrder)
    requires |rec.prices| > 0
    ensures var o := Judge(url, rec, order);
      o.Matched? ==> Agrees(order, o.notice, o.row)
  {
    if IsDeal(rec) && NotifyPage(url, rec, order).Some? {
      var n := NotifyPage(url, rec, order).value;
      var r := RowOf(url, rec);
      if order == AsWritten {
        assert n.ratio == rec.want / rec.have && r.haveWant == rec.have / rec.want;
        ReciprocalRatios(rec.want, rec.have);
      }
    }
  }

  /** The line and the row of one matched iteration agree. */
  lemma MatchedAgrees(url: string, fetch: Fetcher, locate: Locator, order: CallOrder)
    ensures var o := Step(url, fetch, locate, order);
      o.Matched? ==> Agrees(order, o.notice, o.row)
  {
    if fetch(url).Some? && !Text.Contains(fetch(url).value, NotFoundMarker) {
      StepOfFoundPage(url, fetch, locate, order);
      if PageOf(fetch(url).value, locate).Some? {
        JudgeAgrees(url, PageOf(fetch(url).value, locate).value, order);
      }
    } else if fetch(url).Some? {
      NotFoundIsSkipped(url, fetch, locate, order);
    }
  }

  // ---------------------------------------------------------------------------
  // The scraper's worker

  /** Every row the worker appends comes from a queued page that was
      promoted, and there are no more rows than pages. */
  lemma HarvestRowsArePromoted(urls: seq<string>, fetch: Fetcher, locate: Locator, order: CallOrder)
    ensures |Harvest(urls, Worker(fetch, locate, order))| <= |urls|
    ensures forall r :: r in Harvest(urls, Worker(fetch, locate, order)) ==>
      exists i :: 0 <= i < |urls| && Promoted(urls[i], fetch, locate, r)
  {
    var w := Worker(fetch, locate, order);
    HarvestRowsAreMatched(urls, w);
    forall r | r in Harvest(urls, w)
      ensures exists i :: 0 <= i < |urls| && Promoted(urls[i], fetch, locate, r)
    {
      var i :| 0 <= i < |urls| && w(urls[i]).Matched? && w(urls[i]).row == r;
      MatchedIsPromoted(urls[i], fetch, locate, order);
    }
  }

  /** Conversely, a page that is promoted and notified without raising, and
      that the worker reaches (no earlier iteration raised), has its row and
      its line in the result. */
  lemma PromotedPageIsHarvested(urls: seq<string>, i: nat, fetch: Fetcher, locate: Locator, order: CallOrder)
    requires i < |urls| && Survives(urls[..i], Worker(fetch, locate, order))
    requires fetch(urls[i]).Some? && !Text.Contains(fetch(urls[i]).value, NotFoundMarker)
    requires PageOf(fetch(urls[i]).value, locate).Some?
    requires var rec := PageOf(fetch(urls[i]).value, locate).value;
      IsDeal(rec) && NotifyPage(urls[i], rec, order).Some?
    ensures var rec := PageOf(fetch(urls[i]).value, locate).value;
      RowOf(urls[i], rec) in Harvest(urls, Worker(fetch, locate, order))
    ensures var rec := PageOf(fetch(urls[i]).value, locate).value;
      NotifyPage(urls[i], rec, order).value in Notices(urls, Worker(fetch, locate, order))
  {
    var rec := PageOf(fetch(urls[i]).value, locate).value;
    var w := Worker(fetch, locate, order);
    StepOfFoundPage(urls[i], fetch, locate, order);
    assert w(urls[i]) == Matched(NotifyPage(urls[i], rec, order).value, RowOf(urls[i], rec));
    MatchedIsHarvested(urls, i, w);
  }

  /** For every queue there is one printed line per appended row, and the
      k-th line agrees with the k-th row. */
  lemma NoticesMatchRows(urls: seq<string>, fetch: Fetcher, locate: Locator, order: CallOrder)
    ensures |Notices(urls, Worker(fetch, locate, order))| == |Harvest(urls, Worker(fetch, locate, order))|
    ensures forall k :: 0 <= k < |Harvest(urls, Worker(fetch, locate, order))| ==>
      Agrees(order, Notices(urls, Worker(fetch, locate, order))[k], Harvest(urls, Worker(fetch, locate, order))[k])
  {
    var w := Worker(fetch, locate, order);
    forall j | 0 <= j < |urls| && w(urls[j]).Matched?
      ensures Agrees(order, w(urls[j]).notice, w(urls[j]).row)
    {
      MatchedAgrees(urls[j], fetch, locate, order);
    }
    NoticesPairWithRows(urls, w, order);
  }

  /** With the counters passed as declared, a worker whose requests all
      succeed never raises, drains the queue, and leaves nothing for the
      workers after it. */
  lemma DeclaredFirstWorkerDrains(k: nat, urls: seq<string>, fetch: Fetcher, locate: Locator)
    requires k > 0
    requires forall j :: 0 <= j < |urls| ==> fetch(urls[j]).Some?
    ensures Survives(urls, Worker(fetch, locate, AsDeclared))
    ensures Remaining(urls, Worker(fetch, locate, AsDeclared)) == []
    ensures var w := Worker(fetch, locate, AsDeclared);
      RunWorkers(k, urls, w) == Drained(Harvest(urls, w), Notices(urls, w), [])
  {
    var w := Worker(fetch, locate, AsDeclared);
    forall j | 0 <= j < |urls|
      ensures !w(urls[j]).Crashed?
    {
      DeclaredCrashesOnlyOnFetchError(urls[j], fetch, locate);
    }
    SurvivorDrainsQueue(urls, w);
    SurvivingFirstWorkerDrains(k, urls, w);
  }

  // ---------------------------------------------------------------------------
  // End-to-end scenarios

  /** A not-found page, a deal with want 500 and any non-zero have, and a
      page with too few wants give exactly one row, for the deal, with
      min_price 10 and have/want, while the printed line shows want/have (as
      line 118 passes the counters); the queue is drained. With have 250 the
      row holds 0.5 and the line shows 2.0. */
  lemma ThreePageScenario(a: string, b: string, c: string, fetch: Fetcher, locate: Locator)
    requires fetch(a).Some? && fetch(b).Some? && fetch(c).Some?
    requires Text.Contains(fetch(a).value, NotFoundMarker)
    requires !Text.Contains(fetch(b).value, NotFoundMarker) && !Text.Contains(fetch(c).value, NotFoundMarker)
    requires PageOf(fetch(b).value, locate).Some? && PageOf(fetch(c).value, locate).Some?
    requires var rec := PageOf(fetch(b).value, locate).value;
      && rec.want == 500.0 && rec.have != 0.0 && rec.least == 20.0 && rec.median == 30.0
      && rec.prices == [10.0, 25.0]
    requires PageOf(fetch(c).value, locate).value.want == 50.0
    ensures var w, have := Worker(fetch, locate, AsWritten), PageOf(fetch(b).value, locate).value.have;
      && |Harvest([a, b, c], w)| == 1
      && Harvest([a, b, c], w)[0].url == b
      && Harvest([a, b, c], w)[0].minPrice == 10.0
      && Harvest([a, b, c], w)[0].haveWant == have / 500.0
      && |Notices([a, b, c], w)| == 1
      && Notices([a, b, c], w)[0].ratio == 500.0 / have
      && Remaining([a, b, c], w) == []
    ensures var w := Worker(fetch, locate, AsWritten);
      PageOf(fetch(b).value, locate).value.have == 250.0 ==>
        Harvest([a, b, c], w)[0].haveWant == 0.5 && Notices([a, b, c], w)[0].ratio == 2.0
  {
    var w := Worker(fetch, locate, AsWritten);
    var recB := PageOf(fetch(b).value, locate).value;
    assert Deal.Min(recB.prices) == 10.0 by {
      assert recB.prices[1..] == [25.0];
    }
    StepOfFoundPage(b, fetch, locate, AsWritten);
    StepOfFoundPage(c, fetch, locate, AsWritten);
    NotFoundIsSkipped(a, fetch, locate, AsWritten);
    assert w(a) == Skipped;
    assert w(b) == Matched(NotifyPage(b, recB, AsWritten).value, RowOf(b, recB));
    assert w(c) == Skipped;
    assert [a, b, c][1..] == [b, c] && [b, c][1..] == [c] && [c][1..] == [];
    HarvestCons([a, b, c], w);
    HarvestCons([b, c], w);
    HarvestCons([c], w);
  }

  /** The same queue with a have count of 0 on the deal: as written, the
      worker dies on it, appends nothing and leaves the last page queued; as
      declared, it appends the deal's row and drains the queue. */
  lemma ZeroHaveStopsWorker(a: string, b: string, c: string, fetch: Fetcher, locate: Locator)
    requires fetch(a).Some? && fetch(b).Some? && fetch(c).Some?
    requires Text.Contains(fetch(a).value, NotFoundMarker)
    requires !Text.Contains(fetch(b).value, NotFoundMarker)
    requires PageOf(fetch(b).value, locate).Some?
    requires var rec := PageOf(fetch(b).value, locate).value;
      && rec.want == 500.0 && rec.have == 0.0 && rec.least == 20.0 && rec.median == 30.0
      && rec.prices == [10.0, 25.0]
    ensures Harvest([a, b, c], Worker(fetch, locate, AsWritten)) == []
    ensures Remaining([a, b, c], Worker(fetch, locate, AsWritten)) == [c]
    ensures |Harvest([a, b, c], Worker(fetch, locate, AsDeclared))| >= 1
    ensures Remaining([a, b, c], Worker(fetch, locate, AsDeclared)) == []
  {
    var w, d := Worker(fetch, locate, AsWritten), Worker(fetch, locate, AsDeclared);
    var recB := PageOf(fetch(b).value, locate).value;
    assert Deal.Min(recB.prices) == 10.0 by {
      assert recB.prices[1..] == [25.0];
    }
    ZeroHaveCrashesAsWritten(b, fetch, locate);
    NotFoundIsSkipped(a, fetch, locate, AsWritten);
    NotFoundIsSkipped(a, fetch, locate, AsDeclared);
    DeclaredCrashesOnlyOnFetchError(c, fetch, locate);
    assert w(a) == Skipped && d(a) == Skipped;
    assert w(b) == Crashed && d(b).Matched?;
    assert !d(c).Crashed?;
    assert [a, b, c][1..] == [b, c] && [b, c][1..] == [c] && [c][1..] == [];
    HarvestCons([a, b, c], w);
    HarvestCons([b, c], w);
    HarvestCons([a, b, c], d);
    HarvestCons([b, c], d);
    HarvestCons([c], d);
  }

  // ---------------------------------------------------------------------------
  // The scraper object

  class Scraper {
    var start: int
    var stop: int
    /** The queue of URLs still to visit, head first. */
    var urls: seq<string>
    /** The rows appended so far (`result_lst`). */
    var resultLst: seq<Row>
    /** The lines `notify` has printed so far. */
    var console: seq<Notice>
    /** The workers started so far, by number (`self.threads`). */
    var threads: seq<nat>

    /** `__init__` without proxies: the queue holds the URLs of the whole
        range, the result list is empty. */
    constructor (start: int, stop: int)
      ensures this.start == start && this.stop == stop
      ensures WorkQueue.IsUrlRange(urls, start, stop)
      ensures resultLst == [] && console == [] && threads == []
    {
      this.start := start;
      this.stop := stop;
      var q := WorkQueue.FillQueueWithUrls(start, stop);
      urls := q;
      resultLst := [];
      console := [];
      threads := [];
    }

    /** One pass of the body of the `scrape_data` loop for a URL already
        taken off the queue: a failed request or a division by zero in
        `notify` raises (`crashed`), a not-found page or a failed extraction
        ends the pass (the `continue`), a page that passes the filter is
        notified and appended. */
    method Visit(url: string, fetch: Fetcher, locate: Locator, order: CallOrder) returns (crashed: bool)
      modifies this
      ensures crashed <==> Step(url, fetch, locate, order).Crashed?
      ensures resultLst == old(resultLst) + RowsOf(Step(url, fetch, locate, order))
      ensures console == old(console) + NoticesOf(Step(url, fetch, locate, order))
      ensures urls == old(urls) && start == old(start) && stop == old(stop) && threads == old(threads)
    {
      var response := fetch(url);
      if response.None? {
        return true;
      }
      var webPage := response.value;
      if Text.Contains(webPage, NotFoundMarker) {
        NotFoundIsSkipped(url, fetch, locate, order);
        return false;
      }
      var page := PageOf(webPage, locate);
      StepOfFoundPage(url, fetch, locate, order);
      if page.None? {
        return false;
      }
      var rec := page.value;
      if Deal.IsDataAsNeeded(rec.want, rec.least, rec.median, rec.prices) {
        var notice := NotifyPage(url, rec, order);
        if notice.None? {
          assert Judge(url, rec, order) == Crashed;
          return true;
        }
        assert Judge(url, rec, order) == Matched(notice.value, RowOf(url, rec));
        console := console + [notice.value];
        resultLst := resultLst + [RowOf(url, rec)];
      } else {
        assert Judge(url, rec, order) == Skipped;
      }
      return false;
    }

    /** `scrape_data` for one worker running alone: it takes URLs off the
        head of the queue one at a time until the queue is empty or an
        iteration raises, and appends the row of every promoted page to the
        result list. */
    method ScrapeData(fetch: Fetcher, locate: Locator, order: CallOrder, ghost step: string -> Outcome)
      modifies this
      requires IsWorker(step, fetch, locate, order)
      ensures urls == Remaining(old(urls), step)
      ensures resultLst == old(resultLst) + Harvest(old(urls), step)
      ensures console == old(console) + Notices(old(urls), step)
      ensures start == old(start) && stop == old(stop) && threads == old(threads)
    {
      ghost var taken := 0;
      while |urls| > 0
        invariant taken <= |old(urls)| && urls == old(urls)[taken..]
        invariant old(resultLst) + Harvest(old(urls), step) == resultLst + Harvest(urls, step)
        invariant old(console) + Notices(old(urls), step) == console + Notices(urls, step)
        invariant Remaining(old(urls), step) == Remaining(urls, step)
        invariant start == old(start) && stop == old(stop) && threads == old(threads)
        decreases |urls|
      {
        AccumulateStep(resultLst, console, urls, step);
        var url := urls[0];
        urls := urls[1..];
        taken := taken + 1;
        var crashed := Visit(url, fetch, locate, order);
        if crashed {
          return;
        }
      }
    }

    /** One pass of the `for` loop of `start_execution`: a worker is
        numbered, recorded and run to completion, so that `k` workers still to
        run become `k - 1`. */
    method RunWorker(ghost k: nat, fetch: Fetcher, locate: Locator, order: CallOrder, ghost step: string -> Outcome)
      modifies this
      requires k > 0 && IsWorker(step, fetch, locate, order)
      ensures threads == old(threads) + [|old(threads)|]
      ensures urls == Remaining(old(urls), step)
      ensures resultLst == old(resultLst) + Harvest(old(urls), step)
      ensures console == old(console) + Notices(old(urls), step)
      ensures var before, after := RunWorkers(k, old(urls), step), RunWorkers(k - 1, urls, step);
        && old(resultLst) + before.rows == resultLst + after.rows
        && old(console) + before.lines == console + after.lines
        && before.rest == after.rest
      ensures start == old(start) && stop == old(stop)
    {
      RunWorkersCons(k, urls, step);
      ghost var r := RunWorkers(k - 1, Remaining(urls, step), step);
      AppendAssoc(resultLst, Harvest(urls, step), r.rows);
      AppendAssoc(console, Notices(urls, step), r.lines);
      threads := threads + [|threads|];
      ScrapeData(fetch, locate, order, step);
    }

    /** The `for` loop of `start_execution` for `k` workers, run one at a
        time: each is numbered and recorded, and runs to completion on the
        queue the previous one left. */
    method StartWorkers(k: nat, fetch: Fetcher, locate: Locator, order: CallOrder, ghost step: string -> Outcome)
      modifies this
      requires IsWorker(step, fetch, locate, order)
      ensures var d := RunWorkers(k, old(urls), step);
        urls == d.rest && resultLst == old(resultLst) + d.rows && console == old(console) + d.lines
      ensures |threads| == |old(threads)| + k && threads[..|old(threads)|] == old(threads)
      ensures forall j :: |old(threads)| <= j < |threads| ==> threads[j] == j
      ensures start == old(start) && stop == old(stop)
    {
      ghost var d := RunWorkers(k, urls, step);
      var i := 0;
      while i < k
        invariant 0 <= i <= k
        invariant d.rest == RunWorkers(k - i, urls, step).rest
        invariant old(resultLst) + d.rows == resultLst + RunWorkers(k - i, urls, step).rows
        invariant old(console) + d.lines == console + RunWorkers(k - i, urls, step).lines
        invariant |threads| == |old(threads)| + i && threads[..|old(threads)|] == old(threads)
        invariant forall j :: |old(threads)| <= j < |threads| ==> threads[j] == j
        invariant start == old(start) && stop == old(stop)
      {
        RunWorker(k - i, fetch, locate, order, step);
        i := i + 1;
      }
      RunWorkersCons(1, urls, step);
      assert resultLst + [] == resultLst && console + [] == console;
    }

    /** `start_execution`: the number of workers is clamped to the queue
        length (none when it is not positive), and that many are run. */
    method StartExecution(threadCount: int, fetch: Fetcher, locate: Locator, order: CallOrder)
      modifies this
      ensures var n := ClampWorkers(threadCount, |old(urls)|);
        var k := if n > 0 then n else 0;
        var d := RunWorkers(k, old(urls), Worker(fetch, locate, order));
        && urls == d.rest
        && resultLst == old(resultLst) + d.rows
        && console == old(console) + d.lines
        && |threads| == |old(threads)| + k
      ensures |threads| >= |old(threads)| && threads[..|old(threads)|] == old(threads)
      ensures forall j :: |old(threads)| <= j < |threads| ==> threads[j] == j
      ensures start == old(start) && stop == old(stop)
    {
      var n := ClampWorkers(threadCount, |urls|);
      WorkerIsWorker(fetch, locate, order);
      StartWorkers(if n > 0 then n else 0, fetch, locate, order, Worker(fetch, locate, order));
    }
  }
}
