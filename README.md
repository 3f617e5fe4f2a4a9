# Discogs deal scraper: verified model of its decision core

`discogs.py` walks a range of Discogs release ids and fetches the marketplace
listing page of each one. It reads a few numbers and labels off the page. It
keeps a row for every release that looks like a bargain: many users want it,
the median price is high, and some listing is cheaper than the lowest price
recorded for the release. This project models the parts that decide which
rows are kept and what they hold, and proves properties of them:

- `get_float`, the numeric-token parser (module `Numbers`). It is a scanner for
  the regular expression `[-+]?(?:\d*\.\d+|\d+)` applied after every `,` is
  deleted. Values are exact reals.
- the space/newline clean-up, `str.find`, Python slicing, the condition-code
  slice of `notify`, and the substring test (module `Text`).
- the deal filter `is_data_as_needed` (module `Deal`).
- the work queue built by `fill_queue_with_urls` (module `WorkQueue`).
- one iteration of the `scrape_data` loop, the drained queue, and the class
  `Scraper` with its constructor, `scrape_data` and `start_execution`
  (module `Scraping`).
- `Option` with the failure-propagation members used by `:-`
  (module `Wrappers`).

Page fetching is the parameter `fetch: string -> Option<string>`, from a URL
to the page text. `None` stands for a request that raises (a connection error
or a time-out at lines 73 and 76). That call sits outside the `try`, so the
exception ends the worker. The walk over the HTML tree is the parameter
`locate: string -> Option<RawFields>`. It gives back the raw text fragments
of the fields once the decorative `<span>`s are removed, or `None` when an
element is missing (the `IndexError`/`AttributeError` paths of the `try`).
Everything the source does to those fragments is modelled: the clean-up,
`get_float`, `min(prices)` and the filter.

One iteration of the loop is `Step`, with three outcomes: `Skipped` (the
`continue`s, or a page that fails the filter), `Matched` (a line printed and
a row appended) and `Crashed` (an exception outside the `try`). A worker,
`Drain`, takes URLs off the head of the queue until the queue is empty or an
iteration crashes. It gives the rows appended, the lines printed and the
queue left behind. `Harvest`, `Notices` and `Remaining` are those three
parts. `RunWorkers` runs a number of workers one after another, each on the
queue the previous one left. `Scraper.ScrapeData` and
`Scraper.StartExecution` are proved to do exactly what these functions say.

`notify` is declared as `notify(prices, url, have, want, ...)` (line 41), but
line 118 calls it with `want` and `have` swapped. Every iteration takes a
`CallOrder` parameter. `AsWritten` is line 118 as it stands: the printed ratio
is want/have, and a deal with have = 0 raises `ZeroDivisionError` outside the
`try`, which ends the worker with the rest of the queue still queued.
`AsDeclared` is the corrected call, with have/want printed, which never raises
on a deal because the filter forces want > 200. Both are modelled and proved
throughout. The discrepancy is recorded under "## Findings".

## Model

| member | source | states |
|---|---|---|
| Text.Remove | discogs.py:67 | `s.replace(c, "")`: c does not occur in the result. Every other character occurs iff it occurred in s, with the same number of occurrences. The result is no longer than s. |
| Text.RemoveConcat | discogs.py:67 | Deleting a character distributes over concatenation, so the kept characters stay in their original order. |
| Text.RemoveAbsent | discogs.py:67 | Deleting a character that does not occur leaves the text unchanged. |
| Text.RemoveIdempotent | discogs.py:67 | Deleting a character twice is the same as deleting it once. |
| Text.Clean | discogs.py:91 | The space/newline clean-up leaves no `' '` and no `'\n'`. Every other character keeps its number of occurrences. |
| Text.CleanIsFilter | discogs.py:95 | The clean-up distributes over concatenation and keeps a single character exactly when it is not blank, so it is an order-preserving filter. |
| Text.CleanIdempotent | discogs.py:100 | Cleaning twice is the same as cleaning once. |
| Text.Find | discogs.py:43 | `str.find` for one character: -1 exactly when c is absent. Otherwise the index of an occurrence with none before it. |
| Text.SliceBound | discogs.py:43 | A Python slice bound normalised for length n lies in [0, n]. |
| Text.SliceBoundOfIndex | discogs.py:43 | A bound in [0, n] is kept as is; -1 stands for n - 1 (for 0 when n = 0). |
| Text.PySlice | discogs.py:43 | A Python slice is never longer than the text. |
| Text.ConditionCodeCases | discogs.py:43 | The condition slice in each arrangement of parentheses: <br>• the text between them when `(` precedes `)`; <br>• a prefix when `(` is missing; <br>• empty when `)` comes first; <br>• the text after `(` without the last character when `)` is missing. |
| Text.ConditionCodeIsCleanPiece | discogs.py:43 | Whatever the text, the condition code holds no `)` and occurs as a contiguous piece of the text. |
| Text.ConditionCode | discogs.py:43 | The slice of the condition label at line 43, never longer than the label. Its value in each arrangement of parentheses is `Text.ConditionCodeCases`, its shape `Text.ConditionCodeIsCleanPiece`. |
| Text.ContainsIffOccurs | discogs.py:77 | The substring test `needle in hay` holds exactly when needle occurs at some offset of hay. |
| Text.Contains | discogs.py:77 | The substring test `needle in hay`: true only when needle is no longer than hay. Its meaning is `Text.ContainsIffOccurs`. |
| Numbers.DigitEnd | discogs.py:67 | The greedy `\d*` from i: every character before the end is a digit, and the end is the end of the text or a non-digit. |
| Numbers.UnsignedEnd | discogs.py:67 | The end of a match of the unsigned part of the pattern at q, trying the first alternative first: when it exists, it lies after q and within the text. Its meaning is `Numbers.MatchAtIsLongestToken`. |
| Numbers.MatchAt | discogs.py:67 | The end of a match of the whole pattern at p, with the optional sign: when it exists, it lies after p and within the text. `Numbers.MatchAtIsLongestToken` proves it is the longest token at p, and `Numbers.SignNeedsDigitAfter` gives the sign's backtracking. |
| Numbers.FirstMatch | discogs.py:67 | The scan for the first element of `re.findall`: a match starts at the returned position and none starts before it. None means no position matches. |
| Numbers.MatchAtIsLongestToken | discogs.py:67 | Where the regex matches at p, it matches the longest token of sign? followed by (digits? . digits) or by digits starting at p. It fails at p exactly when no such token starts at p. |
| Numbers.FirstMatchIsLeftmostLongest | discogs.py:67 | The scanner's result is the leftmost-longest token of the text, or None when the text holds no token. |
| Numbers.GetFloatIsLeftmostLongestToken | discogs.py:67 | `get_float` fails iff the comma-stripped text holds no token. Otherwise it returns the exact value of that text's leftmost-longest token. |
| Numbers.GetFloat | discogs.py:67 | `get_float`: the value of the first match once commas are deleted, or None for the `IndexError`. Its properties are `Numbers.GetFloatIsLeftmostLongestToken`, `Numbers.GetFloatFailsIffNoDigit` and `Numbers.GetFloatIgnoresComma`. |
| Numbers.TokenValue | discogs.py:67 | `float(token)` as an exact real. Its value on the examples `"1,234.50"`, `".5"` and `"-5"` is given by `Numbers.GetFloatThousands`, `Numbers.GetFloatBareFraction` and `Numbers.GetFloatNegative`; on `str(id)` it is `WorkQueue.TokenValueOfIntToString`. |
| Numbers.GetFloatFailsIffNoDigit | discogs.py:67 | `get_float` fails exactly when the text holds no digit (the `IndexError` of `[0]` on an empty list). |
| Numbers.GetFloatIgnoresComma | discogs.py:67 | Inserting a comma anywhere never changes the result. |
| Numbers.GetFloatOfStripped | discogs.py:67 | Stripping commas before the call changes nothing. |
| Numbers.GetFloatThousands | discogs.py:67 | `"1,234.50"` and `"1234.50"` both read as 1234.5. |
| Numbers.GetFloatTrailingDot | discogs.py:67 | A `.` with no digit after it is not part of the token: `"12."` reads as 12. |
| Numbers.GetFloatBareFraction | discogs.py:67 | The integer digits may be absent: `".5"` reads as 0.5. |
| Numbers.GetFloatNegative | discogs.py:67 | A sign followed by a digit is kept: `"-5"` reads as -5. |
| Numbers.SignNeedsDigitAfter | discogs.py:67 | A sign starts a match exactly when a digit, or a `.` and a digit, follows it. |
| Numbers.FirstMatchSkips | discogs.py:67 | Positions where no match starts can be skipped without changing the first match. |
| Deal.Min | discogs.py:63 | `min(prices)` on a non-empty list is an element and is at most every element. |
| Deal.IsDataAsNeeded | discogs.py:62-64 | `is_data_as_needed` with its four thresholds. Its meaning without `min` is `Deal.DealIffSomeListingBelowLeast`, its edges `Deal.Boundaries`. |
| Deal.DealIffSomeListingBelowLeast | discogs.py:62-64 | The filter holds iff want > 200, median > 20, least >= 15 and some listing is cheaper than least. The have count is not an input. |
| Deal.Boundaries | discogs.py:64 | 200 wants never pass, whatever the other fields. A lowest price of exactly 15 can pass; 14.999 never does, whatever the other fields. |
| WorkQueue.NatToString | discogs.py:58 | `str(n)` is a non-empty run of digits. |
| WorkQueue.IntToString | discogs.py:58 | `str(i)` for any integer, with a `-` before negative numbers. It reads back as i by `WorkQueue.TokenValueOfIntToString`. |
| WorkQueue.UrlOf | discogs.py:58 | The listing URL of an id. Distinct ids give distinct URLs by `WorkQueue.UrlOfInjective`, and the id reads back by `WorkQueue.GetFloatOfUrl`. |
| WorkQueue.FillQueueWithUrls | discogs.py:55-59 | The queue has stop - start + 1 URLs when start <= stop and none otherwise. Element k is the listing URL of start + k. No URL occurs twice. |
| WorkQueue.UrlRangeIsDistinct | discogs.py:57-58 | A queue built from the id range holds no URL twice. |
| WorkQueue.UrlOfInjective | discogs.py:58 | Distinct ids give distinct URLs. |
| WorkQueue.TokenValueOfIntToString | discogs.py:58 | The text `str(id)` reads back as id. |
| WorkQueue.GetFloatOfUrl | discogs.py:58 | `get_float` of the listing URL of id is id: the number in a queued URL is its release id. |
| Scraping.GetFloats | discogs.py:108 | The price comprehension succeeds iff every price text parses, and then yields each text's value in order. |
| Scraping.Extract | discogs.py:79-112 | A page whose extraction succeeds has one price per listing and at least one listing (`min` raises on none at line 110). |
| Scraping.ExtractFailsIff | discogs.py:87-112 | Extraction fails exactly when the want, have, lowest or median text holds no digit, a price text holds none, or there is no listing. |
| Scraping.PageOf | discogs.py:79-112 | An extracted page record has at least one price. |
| Scraping.RowOf | discogs.py:119 | The appended row's min_price is a listing price below the lowest recorded price. Its ratio times want is have. |
| Scraping.Notify | discogs.py:41-44 | `notify` raises exactly when its want argument is 0. Otherwise the printed ratio times want is have, and the printed price is `min(prices)`. |
| Scraping.NotifyPage | discogs.py:118 | The call of `notify` for a page, with the counts in either order. Its contract is `Scraping.Notify`'s; `Scraping.ZeroHaveDealExists` shows the two orders differ. |
| Scraping.Judge | discogs.py:117-119 | The filter, `notify` and the append for an extracted page. `Scraping.JudgeAgrees` proves the printed line and the row agree. |
| Scraping.Step | discogs.py:71-119 | One iteration of the loop. Its outcomes are `Scraping.CrashIff`, `Scraping.NotFoundIsSkipped`, `Scraping.StepOfFoundPage` and `Scraping.MatchedIsPromoted`. |
| Scraping.CrashIff | discogs.py:73-118 | An iteration raises exactly when the request fails, or, with line 118 as written, when the page is a deal with have = 0. |
| Scraping.DeclaredCrashesOnlyOnFetchError | discogs.py:117-119 | With the counts passed as declared, an iteration raises only when the request fails: the filter forces want > 200. |
| Scraping.NotFoundIsSkipped | discogs.py:77-78 | A fetched page containing `404! Oh no!` is skipped before any extraction, whatever the page holds. |
| Scraping.StepOfFoundPage | discogs.py:79-117 | Any other fetched page is skipped when extraction fails, and is judged on its record otherwise. |
| Scraping.UnparsablePageIsSkipped | discogs.py:87-112 | A fetched page whose want or median text has no digit, or that lists no price, is skipped. |
| Scraping.MatchedIsPromoted | discogs.py:73-119 | The row of an iteration comes from a fetched page that is not a not-found page and whose extraction succeeded. Its record passed the filter. Its fields are url, `min(prices)`, have/want (want > 0), country and condition. |
| Scraping.ZeroHaveCrashesAsWritten | discogs.py:118 | With the counts passed as at line 118, a deal with have = 0 raises in `notify` before its row is appended. Passed as declared, the same page yields its row. |
| Scraping.ZeroHaveDealExists | discogs.py:41-44 | A record with have = 0 can pass the filter: the as-written call raises, the declared one does not. |
| Scraping.CallOrderOnlyMattersForZeroHave | discogs.py:118-119 | When the page is not a deal with have = 0, both call orders raise alike, match alike and append the same row. |
| Scraping.JudgeAgrees | discogs.py:41-119 | The printed line and the row of a matched record share URL, price and country, and the line's condition code is the one sliced out of the row's condition. The printed ratio is the row's have/want as declared, and its reciprocal as written. |
| Scraping.MatchedAgrees | discogs.py:41-119 | The same agreement for every matched iteration. |
| Scraping.Drain | discogs.py:69-119 | One worker's pass over the queue, up to the first iteration that raises. Its properties are the lemmas below. |
| Scraping.Harvest | discogs.py:69-119 | The rows one worker appends. They are characterised by `Scraping.HarvestRowsArePromoted` and `Scraping.PromotedPageIsHarvested`. |
| Scraping.Notices | discogs.py:69-118 | The lines one worker prints. `Scraping.NoticesMatchRows` pairs them with the rows. |
| Scraping.Remaining | discogs.py:70-71 | The queue one worker leaves. `Scraping.SurvivorDrainsQueue` and `Scraping.FirstCrashStopsWorker` give it. |
| Scraping.SurvivorDrainsQueue | discogs.py:70 | A worker none of whose iterations raises leaves the queue empty. |
| Scraping.HarvestAppend | discogs.py:70-119 | Pages are processed independently, up to the first crash. The rows and lines of a concatenated queue are those of the first part, then those of the second if the first part did not crash. The queue left is the second part's, or else the first part's rest followed by the whole second part. |
| Scraping.FirstCrashStopsWorker | discogs.py:70-118 | The first iteration that raises ends the worker. The rows and lines are those of the pages before it, and the URLs after it stay queued. |
| Scraping.SkippedPageIsIsolated | discogs.py:77-117 | A skipped page adds no row and leaves the other pages' rows as they are. |
| Scraping.HarvestRowsAreMatched | discogs.py:119 | There are never more rows than URLs. Every row is the row of a matched iteration of a queued URL. |
| Scraping.MatchedIsHarvested | discogs.py:70-119 | A matched iteration that the worker reaches has its row and its line in the result. |
| Scraping.HarvestRowsArePromoted | discogs.py:70-119 | There are never more rows than queued pages. Every row comes from a queued page that was promoted as in `Scraping.MatchedIsPromoted`. |
| Scraping.PromotedPageIsHarvested | discogs.py:70-119 | Conversely, a queued page that the worker reaches, that is fetched and not a not-found page, and whose record passes the filter and is notified without raising, has `(url, min(prices), have/want, country, condition)` among the rows and its line among the printed lines. |
| Scraping.NoticesPairWithRows | discogs.py:118-119 | When every matched iteration's line agrees with its row, there is one line per row and the k-th line agrees with the k-th row. |
| Scraping.NoticesMatchRows | discogs.py:41-119 | For either call order, there is one printed line per row. The k-th line and the k-th row agree on URL, price, country and condition code. The printed ratio is the row's have/want as declared, and its reciprocal (want/have) as written. |
| Scraping.ThreePageScenario | discogs.py:70-119 | With line 118 as written: a not-found page, a deal (want 500, any non-zero have, least 20, median 30, prices 10 and 25) and a page with 50 wants give exactly one row. It is the deal's, with min_price 10 and have/want. The one printed line shows want/have, and the queue is drained. With have 250 the row holds 0.5 and the line shows 2.0. |
| Scraping.ZeroHaveStopsWorker | discogs.py:41-118 | The same queue with have = 0 on the deal. As written, the worker appends nothing and leaves the third page queued. As declared, it appends a row and drains the queue. |
| Scraping.DeclaredFirstWorkerDrains | discogs.py:70-130 | With the counts passed as declared and no failed request, the first worker never raises and drains the queue. Any number of workers then append exactly its rows. |
| Scraping.ClampWorkers | discogs.py:122-123 | The worker count becomes the smaller of the requested count and the queue length. |
| Scraping.RunWorkers | discogs.py:124-127 | The `for` loop's workers run one after another, each on the queue the previous one left. Its properties are `Scraping.WorkersDrainQueue`, `Scraping.WorkersOnEmptyQueue` and `Scraping.SurvivingFirstWorkerDrains`. |
| Scraping.RemainingShrinks | discogs.py:70-71 | A worker never lengthens the queue, and takes at least one URL off a non-empty queue. |
| Scraping.WorkersDrainQueue | discogs.py:121-127 | k workers leave at most the queue length minus k URLs. So the clamp's `qsize()` workers always drain the queue, even when iterations raise. |
| Scraping.WorkersOnEmptyQueue | discogs.py:122-127 | Workers on an empty queue append and print nothing. |
| Scraping.SurvivingFirstWorkerDrains | discogs.py:70-127 | When the first worker survives the whole queue, the workers together append exactly its rows and leave nothing queued. |
| Scraping.Scraper.constructor | discogs.py:30-35 | A new scraper holds the URL queue of its whole range, no rows and no workers. |
| Scraping.Scraper.Visit | discogs.py:71-119 | One loop body, for either call order. It reports whether the iteration raised, and appends exactly the row and the line of its outcome. The queue and the bounds are untouched. |
| Scraping.Scraper.ScrapeData | discogs.py:69-119 | The loop, for either call order. It leaves exactly `Remaining` queued: nothing, or the URLs after the first iteration that raised. It has appended exactly the rows and printed exactly the lines of `Harvest` and `Notices`, after the earlier ones. |
| Scraping.Scraper.RunWorker | discogs.py:124-127 | One pass of the `for` loop: the next worker number is recorded and one worker runs. It leaves exactly `Remaining` queued and appends exactly the rows and lines of `Harvest` and `Notices`. What it leaves to the workers after it is what `RunWorkers` has for them. |
| Scraping.Scraper.StartWorkers | discogs.py:124-130 | k workers are numbered, recorded and run. The queue, the rows and the lines become exactly those of `RunWorkers`. |
| Scraping.Scraper.StartExecution | discogs.py:121-130 | The clamped number of workers (none when it is not positive) is started, numbered consecutively after the earlier ones. The queue, the rows and the lines become those of `RunWorkers` for that number. |

## Left out

- HTTP fetching, with or without a proxy (lines 15, 23, 73, 76), is the parameter `fetch`. The choice between the two (`use_proxy`) is not modelled.
- Scraping.Step: a request with no timeout (lines 73, 76) can also hang forever. The model has only its two ends: a page, or an exception (`None`).
- `get_proxy_lst` (lines 12-26) is network-bound and not modelled. When a row is not anonymous, line 22 probes a proxy left over from an earlier row, or an unbound name; that is not modelled either.
- Random proxy selection (line 75) is nondeterministic and not modelled.
- The BeautifulSoup/lxml traversal (lines 80-108) is a foreign library. It is the parameter `locate`; only the clean-up, `get_float` and `min` that the source applies to its results are modelled.
- Threads (lines 124-130) are not modelled: the `qsize()`-then-`get()` race, interleaving, and the order of rows under concurrency. Workers run one after another, each to completion, on the queue the previous one left.
- CSV export (lines 46-52), all `print` output, argparse and `main` (lines 135-154) are I/O. The printed line of `notify` is modelled only as its fields (`Notice`).
- Numbers.GetFloat: `float(...)` is exact real arithmetic here. IEEE rounding, overflow to infinity and the float value of `have/want` are not modelled.
- Numbers.IsDigit: `\d` is the ASCII digits only. Python also matches other Unicode decimal digits.
- Scraping.Scraper.StartExecution: it does not model threads that share the queue. A worker that dies passes what is left of the queue to the next one, and the rows are those of this sequential schedule.
- Scraping.Scraper.ScrapeData: an exception that ends a worker is modelled as the method returning. The traceback the thread prints is not modelled.

## Findings

| source | as written | input that shows it | evidently intended | confidence | as-written member | corrected member |
|---|---|---|---|---|---|---|
| discogs.py:118 (with 41-44) | `notify(prices, url, want, have, ...)` passes the counts in the wrong order, so it divides by the have count. A deal with have = 0 raises `ZeroDivisionError` outside the `try`. The worker dies before the row is appended and leaves the rest of the queue unvisited. On every other deal the printed ratio is want/have while the row holds have/want. | a page with want = 500, have = 0, least = 20, median = 30, prices = [10, 25] | `notify(prices, url, have, want, ...)`: the ratio have/want, always defined because the filter forces want > 200 | high, not executed | Scraping.ZeroHaveStopsWorker | Scraping.DeclaredFirstWorkerDrains |
