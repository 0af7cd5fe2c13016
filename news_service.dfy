/** The paginated fetch-and-deduplicate loop (src/services/news_service.py,
    NewsService.search_and_format). The news search API is an oracle
    `search` from a request to the list under the response's 'items' key
    (a missing key reads as the empty list). */
module NewsService {
  import opened Seqs
  import opened Records
  import opened Formatter
  import opened Deduplicator

  /** The arguments of one search_news call. */
  datatype Request = Request(query: string, display: int, start: int, sort: string)

  /** `min(100, count * 2)`: the page size of every call of the loop. */
  function BatchSize(count: int): (b: int)
    ensures b <= 100 && b <= 2 * count
    ensures b == 100 || b == 2 * count
  {
    if 100 <= count * 2 then 100 else count * 2
  }

  /** The candidate pool after `calls`: the formatted pages, in fetch order. */
  ghost function Pool(search: Request -> seq<Record>, calls: seq<Request>): seq<Record> {
    if calls == [] then []
    else Pool(search, calls[..|calls| - 1]) + FormatNewsList(search(calls[|calls| - 1]))
  }

  /** The raw pages of `calls`, joined in fetch order. */
  ghost function Pages(search: Request -> seq<Record>, calls: seq<Request>): seq<Record> {
    if calls == [] then []
    else Pages(search, calls[..|calls| - 1]) + search(calls[|calls| - 1])
  }

  /** Formatting page by page and extending the pool is formatting the joined
      raw pages: the pool holds every fetched item, formatted, in fetch order. */
  lemma {:induction false} PoolFormatsPages(search: Request -> seq<Record>, calls: seq<Request>)
    ensures Pool(search, calls) == FormatNewsList(Pages(search, calls))
  {
    if calls != [] {
      var init := calls[..|calls| - 1];
      PoolFormatsPages(search, init);
      FormatNewsListAppend(Pages(search, init), search(calls[|calls| - 1]));
    }
  }

  /** `k * b`, written as a sum so that the loop's bookkeeping stays linear:
      the total size of `k` pages of `b` items. */
  function Offset(k: nat, b: int): int {
    if k == 0 then 0 else Offset(k - 1, b) + b
  }

  lemma {:induction false} OffsetIsProduct(k: nat, b: int)
    ensures Offset(k, b) == k * b
  {
    if k > 0 {
      OffsetIsProduct(k - 1, b);
    }
  }

  /** After call `k` the loop did not stop: the page was full and not
      empty, and the target was not reached. */
  ghost predicate Continued(search: Request -> seq<Record>, ratio: Ratio, stamp: string -> int,
                            count: int, threshold: real, calls: seq<Request>, k: nat)
    requires k < |calls|
  {
    var page := search(calls[k]);
    var pool := Pool(search, calls[..k + 1]);
    && page != []
    && |Dedup(ratio, stamp, pool, threshold)| < count
    && |page| >= BatchSize(count)
  }

  /** The k-th call (from 0) asks for a page of BatchSize(count) starting
      at 1 + k * BatchSize(count). */
  ghost predicate Paged(query: string, count: int, sort: string, calls: seq<Request>) {
    forall k :: 0 <= k < |calls| ==>
      calls[k] == Request(query, BatchSize(count), 1 + k * BatchSize(count), sort)
  }

  /** Every call was made while the pool was below the fetch ceiling 3 * count. */
  ghost predicate UnderCeiling(search: Request -> seq<Record>, count: int, calls: seq<Request>) {
    forall k :: 0 <= k < |calls| ==> |Pool(search, calls[..k])| < 3 * count
  }

  /** Every call but the last was followed by another for the reasons in
      `Continued`. */
  ghost predicate AllContinued(search: Request -> seq<Record>, ratio: Ratio, stamp: string -> int,
                               count: int, threshold: real, calls: seq<Request>) {
    forall k :: 0 <= k < |calls| - 1 ==> Continued(search, ratio, stamp, count, threshold, calls, k)
  }

  /** What every call of the loop so far satisfies, call by call: the last
      call asks for the next page, it was made below the fetch ceiling, and
      the call before it did not stop the loop. `HistoryMeans` states it
      for all calls at once. */
  ghost predicate History(search: Request -> seq<Record>, ratio: Ratio, stamp: string -> int,
                          query: string, count: int, sort: string, threshold: real,
                          calls: seq<Request>)
    decreases |calls|
  {
    calls == [] ||
    var n := |calls| - 1;
    && History(search, ratio, stamp, query, count, sort, threshold, calls[..n])
    && calls[n] == Request(query, BatchSize(count), 1 + Offset(n, BatchSize(count)), sort)
    && |Pool(search, calls[..n])| < 3 * count
    && (n > 0 ==> Continued(search, ratio, stamp, count, threshold, calls[..n], n - 1))
  }

  /** Why the loop stopped after its last call. */
  ghost predicate Stopped(search: Request -> seq<Record>, ratio: Ratio, stamp: string -> int,
                          count: int, threshold: real, calls: seq<Request>)
    requires calls != []
  {
    var page := search(calls[|calls| - 1]);
    var pool := Pool(search, calls);
    || page == []
    || |Dedup(ratio, stamp, pool, threshold)| >= count
    || |page| < BatchSize(count)
    || |pool| >= 3 * count
  }

  /** ceil(a / b) for a positive `b`, counted by repeated subtraction so that
      proofs about the loop stay linear (0 when `a` is not positive). */
  function CeilDiv(a: int, b: int): (q: nat)
    requires b > 0
    decreases a
  {
    if a <= 0 then 0 else 1 + CeilDiv(a - b, b)
  }

  /** The count is the usual ceiling of the quotient. */
  lemma {:induction false} CeilDivIsQuotient(a: nat, b: int)
    requires b > 0
    ensures CeilDiv(a, b) == (a + b - 1) / b
  {
    if a == 0 {
      DivSmall(b - 1, b);
    } else if a >= b {
      CeilDivIsQuotient(a - b, b);
      DivShift(a - 1, b);
    } else {
      DivShift(a - 1, b);
      DivSmall(a - 1, b);
    }
  }

  lemma DivSmall(x: int, b: int)
    requires 0 <= x < b
    ensures x / b == 0
  {
    var q := x / b;
    if q >= 1 {
      MulMonotone(1, q, b);
    } else if q <= -1 {
      MulMonotone(q, -1, b);
    }
  }

  lemma DivShift(x: int, b: int)
    requires b > 0
    ensures (x + b) / b == x / b + 1
  {
    var q, r := x / b, x % b;
    var q2, r2 := (x + b) / b, (x + b) % b;
    var k := q2 - q - 1;
    assert k * b == r - r2 by {
      assert q2 * b - q * b - b == (q2 - q - 1) * b;
    }
    if k >= 1 {
      MulMonotone(1, k, b);
    } else if k <= -1 {
      MulMonotone(k, -1, b);
    }
  }

  lemma MulMonotone(x: int, y: int, b: int)
    requires b > 0
    ensures x <= y ==> x * b <= y * b
  {
    if x <= y {
      assert (y - x) * b >= 0;
    }
  }

  /** From `c - 1` full pages staying under the ceiling to the bound on the
      number of calls. */
  lemma {:induction false} CallBound(c: nat, b: int, ceiling: int)
    requires b > 0 && c > 0 && Offset(c - 1, b) < ceiling
    ensures c <= CeilDiv(ceiling, b)
  {
    if c > 1 {
      OffsetNonNegative(c - 2, b);
      CallBound(c - 1, b, ceiling - b);
    }
  }

  lemma {:induction false} OffsetNonNegative(k: nat, b: int)
    requires b > 0
    ensures Offset(k, b) >= 0
  {
    if k > 0 {
      OffsetNonNegative(k - 1, b);
    }
  }

  lemma PoolSnoc(search: Request -> seq<Record>, calls: seq<Request>, r: Request)
    ensures Pool(search, calls + [r]) == Pool(search, calls) + FormatNewsList(search(r))
  {
    assert (calls + [r])[..|calls|] == calls;
  }

  /** One more call, made below the ceiling with the next start offset after
      a call that did not stop the loop, extends the history. */
  lemma HistorySnoc(search: Request -> seq<Record>, ratio: Ratio, stamp: string -> int,
                    query: string, count: int, sort: string, threshold: real,
                    calls: seq<Request>, r: Request)
    requires History(search, ratio, stamp, query, count, sort, threshold, calls)
    requires calls != [] ==> Continued(search, ratio, stamp, count, threshold, calls, |calls| - 1)
    requires r == Request(query, BatchSize(count), 1 + Offset(|calls|, BatchSize(count)), sort)
    requires |Pool(search, calls)| < 3 * count
    ensures History(search, ratio, stamp, query, count, sort, threshold, calls + [r])
  {
    assert (calls + [r])[..|calls|] == calls;
  }

  /** The history is exactly the three properties of all calls: paged,
      under the ceiling, and each call but the last continued. */
  lemma HistoryMeans(search: Request -> seq<Record>, ratio: Ratio, stamp: string -> int,
                     query: string, count: int, sort: string, threshold: real,
                     calls: seq<Request>)
    ensures History(search, ratio, stamp, query, count, sort, threshold, calls)
            <==> && Paged(query, count, sort, calls)
                 && UnderCeiling(search, count, calls)
                 && AllContinued(search, ratio, stamp, count, threshold, calls)
  {
    if History(search, ratio, stamp, query, count, sort, threshold, calls) {
      HistoryToParts(search, ratio, stamp, query, count, sort, threshold, calls);
    } else if && Paged(query, count, sort, calls)
              && UnderCeiling(search, count, calls)
              && AllContinued(search, ratio, stamp, count, threshold, calls)
    {
      PartsToHistory(search, ratio, stamp, query, count, sort, threshold, calls);
    }
  }

  lemma {:induction false} HistoryToParts(search: Request -> seq<Record>, ratio: Ratio, stamp: string -> int,
                                          query: string, count: int, sort: string, threshold: real,
                                          calls: seq<Request>)
    requires History(search, ratio, stamp, query, count, sort, threshold, calls)
    ensures Paged(query, count, sort, calls)
    ensures UnderCeiling(search, count, calls)
    ensures AllContinued(search, ratio, stamp, count, threshold, calls)
    decreases |calls|
  {
    if calls != [] {
      var n := |calls| - 1;
      HistoryToParts(search, ratio, stamp, query, count, sort, threshold, calls[..n]);
      OffsetIsProduct(n, BatchSize(count));
      HistoryOfSnoc(search, ratio, stamp, query, count, sort, threshold, calls);
    }
  }

  lemma {:induction false} PartsToHistory(search: Request -> seq<Record>, ratio: Ratio, stamp: string -> int,
                                          query: string, count: int, sort: string, threshold: real,
                                          calls: seq<Request>)
    requires Paged(query, count, sort, calls)
    requires UnderCeiling(search, count, calls)
    requires AllContinued(search, ratio, stamp, count, threshold, calls)
    ensures History(search, ratio, stamp, query, count, sort, threshold, calls)
    decreases |calls|
  {
    if calls != [] {
      var n := |calls| - 1;
      var init, r := calls[..n], calls[n];
      assert calls == init + [r];
      HistoryOfPrefix(search, ratio, stamp, query, count, sort, threshold, init, r);
      PartsToHistory(search, ratio, stamp, query, count, sort, threshold, init);
      OffsetIsProduct(n, BatchSize(count));
    }
  }

  /** The step of `HistoryMeans`: the three properties extend from a prefix
      to one more call that meets the last call's conditions. */
  lemma HistoryOfSnoc(search: Request -> seq<Record>, ratio: Ratio, stamp: string -> int,
                      query: string, count: int, sort: string, threshold: real,
                      calls: seq<Request>)
    requires calls != []
    requires Paged(query, count, sort, calls[..|calls| - 1])
    requires UnderCeiling(search, count, calls[..|calls| - 1])
    requires AllContinued(search, ratio, stamp, count, threshold, calls[..|calls| - 1])
    requires calls[|calls| - 1] == Request(query, BatchSize(count), 1 + (|calls| - 1) * BatchSize(count), sort)
    requires |Pool(search, calls[..|calls| - 1])| < 3 * count
    requires |calls| > 1 ==> Continued(search, ratio, stamp, count, threshold, calls[..|calls| - 1], |calls| - 2)
    ensures Paged(query, count, sort, calls)
    ensures UnderCeiling(search, count, calls)
    ensures AllContinued(search, ratio, stamp, count, threshold, calls)
  {
    var init, r := calls[..|calls| - 1], calls[|calls| - 1];
    assert calls == init + [r];
    PagedSnoc(query, count, sort, init, r);
    UnderCeilingSnoc(search, count, init, r);
    AllContinuedSnoc(search, ratio, stamp, count, threshold, init, r);
  }

  /** The converse step of `HistoryMeans`: the three properties of a history
      hold of its prefix and give the last call's own conditions. */
  lemma HistoryOfPrefix(search: Request -> seq<Record>, ratio: Ratio, stamp: string -> int,
                        query: string, count: int, sort: string, threshold: real,
                        init: seq<Request>, r: Request)
    requires Paged(query, count, sort, init + [r])
    requires UnderCeiling(search, count, init + [r])
    requires AllContinued(search, ratio, stamp, count, threshold, init + [r])
    ensures Paged(query, count, sort, init)
    ensures UnderCeiling(search, count, init)
    ensures AllContinued(search, ratio, stamp, count, threshold, init)
    ensures r == Request(query, BatchSize(count), 1 + |init| * BatchSize(count), sort)
    ensures |Pool(search, init)| < 3 * count
    ensures init != [] ==> Continued(search, ratio, stamp, count, threshold, init, |init| - 1)
  {
    var calls := init + [r];
    assert calls[|init|] == r;
    assert calls[..|init|] == init;
    forall k | 0 <= k < |init| ensures init[k] == Request(query, BatchSize(count), 1 + k * BatchSize(count), sort) {
      assert calls[k] == init[k];
    }
    forall k | 0 <= k < |init| ensures |Pool(search, init[..k])| < 3 * count {
      assert calls[..k] == init[..k];
    }
    forall k | 0 <= k < |init| ensures Continued(search, ratio, stamp, count, threshold, init, k) {
      ContinuedSnoc(search, ratio, stamp, count, threshold, init, r, k);
    }
  }

  lemma PagedSnoc(query: string, count: int, sort: string, calls: seq<Request>, r: Request)
    requires Paged(query, count, sort, calls)
    requires r == Request(query, BatchSize(count), 1 + |calls| * BatchSize(count), sort)
    ensures Paged(query, count, sort, calls + [r])
  {
    var calls' := calls + [r];
    forall k | 0 <= k < |calls'|
      ensures calls'[k] == Request(query, BatchSize(count), 1 + k * BatchSize(count), sort)
    {
      if k < |calls| {
        assert calls'[k] == calls[k];
      }
    }
  }

  lemma UnderCeilingSnoc(search: Request -> seq<Record>, count: int, calls: seq<Request>, r: Request)
    requires UnderCeiling(search, count, calls)
    requires |Pool(search, calls)| < 3 * count
    ensures UnderCeiling(search, count, calls + [r])
  {
    var calls' := calls + [r];
    forall k | 0 <= k < |calls'| ensures |Pool(search, calls'[..k])| < 3 * count {
      if k < |calls| {
        assert calls'[..k] == calls[..k];
      } else {
        assert calls'[..k] == calls;
      }
    }
  }

  lemma AllContinuedSnoc(search: Request -> seq<Record>, ratio: Ratio, stamp: string -> int,
                         count: int, threshold: real, calls: seq<Request>, r: Request)
    requires AllContinued(search, ratio, stamp, count, threshold, calls)
    requires calls != [] ==> Continued(search, ratio, stamp, count, threshold, calls, |calls| - 1)
    ensures AllContinued(search, ratio, stamp, count, threshold, calls + [r])
  {
    var calls' := calls + [r];
    forall k | 0 <= k < |calls| - 1
      ensures Continued(search, ratio, stamp, count, threshold, calls', k)
    {
      ContinuedSnoc(search, ratio, stamp, count, threshold, calls, r, k);
    }
    if calls != [] {
      ContinuedSnoc(search, ratio, stamp, count, threshold, calls, r, |calls| - 1);
    }
  }

  lemma ContinuedSnoc(search: Request -> seq<Record>, ratio: Ratio, stamp: string -> int,
                      count: int, threshold: real, calls: seq<Request>, r: Request, k: nat)
    requires k < |calls|
    ensures Continued(search, ratio, stamp, count, threshold, calls + [r], k)
            == Continued(search, ratio, stamp, count, threshold, calls, k)
  {
    assert (calls + [r])[..k + 1] == calls[..k + 1];
  }

  /** Every call before the `k`-th returned a full page, so the pool after
      `k` calls holds at least `k` pages' worth of items. */
  lemma {:induction false} FullPages(search: Request -> seq<Record>, ratio: Ratio, stamp: string -> int,
                                     query: string, count: int, sort: string, threshold: real,
                                     calls: seq<Request>, k: nat)
    requires History(search, ratio, stamp, query, count, sort, threshold, calls)
    requires k < |calls|
    ensures |Pool(search, calls[..k])| >= Offset(k, BatchSize(count))
  {
    if k > 0 {
      HistoryMeans(search, ratio, stamp, query, count, sort, threshold, calls);
      FullPages(search, ratio, stamp, query, count, sort, threshold, calls, k - 1);
      assert Continued(search, ratio, stamp, count, threshold, calls, k - 1);
      assert calls[..k][..k - 1] == calls[..k - 1];
    }
  }

  /** The loop made a call only while 3 * count was positive, and at most
      ceil(3 * count / BatchSize(count)) calls. */
  lemma CallsBounded(search: Request -> seq<Record>, ratio: Ratio, stamp: string -> int,
                     query: string, count: int, sort: string, threshold: real,
                     calls: seq<Request>)
    requires History(search, ratio, stamp, query, count, sort, threshold, calls)
    requires calls != []
    ensures 3 * count > 0
    ensures count >= 1 ==> |calls| <= CeilDiv(3 * count, BatchSize(count))
  {
    HistoryMeans(search, ratio, stamp, query, count, sort, threshold, calls);
    assert calls[..0] == [];
    assert |Pool(search, calls[..0])| < 3 * count;
    var n := |calls| - 1;
    FullPages(search, ratio, stamp, query, count, sort, threshold, calls, n);
    assert |Pool(search, calls[..n])| < 3 * count;
    if count >= 1 {
      CallBound(|calls|, BatchSize(count), 3 * count);
    }
  }

  /** One call of the loop after `calls` extends the history and appends its
      formatted page to the pool. */
  lemma Fetch(search: Request -> seq<Record>, ratio: Ratio, stamp: string -> int,
              query: string, count: int, sort: string, threshold: real,
              calls: seq<Request>, r: Request)
    requires History(search, ratio, stamp, query, count, sort, threshold, calls)
    requires calls != [] ==> Continued(search, ratio, stamp, count, threshold, calls, |calls| - 1)
    requires r == Request(query, BatchSize(count), 1 + Offset(|calls|, BatchSize(count)), sort)
    requires |Pool(search, calls)| < 3 * count
    ensures History(search, ratio, stamp, query, count, sort, threshold, calls + [r])
    ensures Pool(search, calls + [r]) == Pool(search, calls) + FormatNewsList(search(r))
  {
    HistorySnoc(search, ratio, stamp, query, count, sort, threshold, calls, r);
    PoolSnoc(search, calls, r);
  }

  /** After call `r` the loop either stops, for one of the reasons in
      `Stopped`, or goes on, as `Continued` says. */
  lemma FetchOutcome(search: Request -> seq<Record>, ratio: Ratio, stamp: string -> int,
                     count: int, threshold: real, calls: seq<Request>, r: Request)
    ensures search(r) == [] ==> Stopped(search, ratio, stamp, count, threshold, calls + [r])
    ensures |Dedup(ratio, stamp, Pool(search, calls + [r]), threshold)| >= count ==>
              Stopped(search, ratio, stamp, count, threshold, calls + [r])
    ensures |search(r)| < BatchSize(count) ==> Stopped(search, ratio, stamp, count, threshold, calls + [r])
    ensures search(r) != [] && |search(r)| >= BatchSize(count)
            && |Dedup(ratio, stamp, Pool(search, calls + [r]), threshold)| < count ==>
              Continued(search, ratio, stamp, count, threshold, calls + [r], |calls|)
  {
    assert (calls + [r])[..|calls| + 1] == calls + [r];
  }

  /** search_and_format. Without deduplication: one call for `count` items,
      formatted and returned. With it, the loop of `FetchDeduplicated`. */
  method SearchAndFormat(search: Request -> seq<Record>, ratio: Ratio, stamp: string -> int,
                         query: string, count: int, sort: string,
                         removeDuplicates: bool, similarityThreshold: real)
    returns (news: seq<Record>, ghost calls: seq<Request>, ghost allNews: seq<Record>)
    ensures !removeDuplicates ==>
              && calls == [Request(query, count, 1, sort)]
              && news == FormatNewsList(search(calls[0]))
    ensures removeDuplicates ==>
              && History(search, ratio, stamp, query, count, sort, similarityThreshold, calls)
              && allNews == Pool(search, calls)
              && (calls == [] <==> 3 * count <= 0)
              && (calls != [] ==> Stopped(search, ratio, stamp, count, similarityThreshold, calls))
              && (count >= 1 ==> |calls| <= CeilDiv(3 * count, BatchSize(count)))
              && news == SliceTo(Dedup(ratio, stamp, allNews, similarityThreshold), count)
    ensures removeDuplicates && count <= 0 ==> news == []
  {
    if !removeDuplicates {
      var request := Request(query, count, 1, sort);
      var items := search(request);
      calls := [request];
      news := FormatNewsList(items);
      allNews := news;
      return;
    }
    news, calls, allNews := FetchDeduplicated(search, ratio, stamp, query, count, sort, similarityThreshold);
  }

  /** The deduplicating branch of search_and_format: the calls follow
      `History`; the pool is every page formatted, in fetch order; no call is
      made when 3 * count <= 0 and the last call stopped the loop for one of
      the reasons in `Stopped`; at most ceil(3 * count / BatchSize(count))
      calls are made; the result is the deduplicated pool cut to `count`. */
  method FetchDeduplicated(search: Request -> seq<Record>, ratio: Ratio, stamp: string -> int,
                           query: string, count: int, sort: string, similarityThreshold: real)
    returns (news: seq<Record>, ghost calls: seq<Request>, ghost allNews: seq<Record>)
    ensures History(search, ratio, stamp, query, count, sort, similarityThreshold, calls)
    ensures allNews == Pool(search, calls)
    ensures calls == [] <==> 3 * count <= 0
    ensures calls != [] ==> Stopped(search, ratio, stamp, count, similarityThreshold, calls)
    ensures count >= 1 ==> |calls| <= CeilDiv(3 * count, BatchSize(count))
    ensures news == SliceTo(Dedup(ratio, stamp, allNews, similarityThreshold), count)
    ensures count <= 0 ==> news == []
  {
    var all: seq<Record> := [];
    var start := 1;
    var maxFetch := count * 3;
    var batchSize := BatchSize(count);
    calls := [];

    while |all| < maxFetch
      invariant start == 1 + Offset(|calls|, batchSize)
      invariant all == Pool(search, calls)
      invariant History(search, ratio, stamp, query, count, sort, similarityThreshold, calls)
      invariant calls != [] ==>
                  Continued(search, ratio, stamp, count, similarityThreshold, calls, |calls| - 1)
      decreases maxFetch - |all|
    {
      var request := Request(query, batchSize, start, sort);
      var items := search(request);
      Fetch(search, ratio, stamp, query, count, sort, similarityThreshold, calls, request);
      FetchOutcome(search, ratio, stamp, count, similarityThreshold, calls, request);
      calls := calls + [request];

      if items == [] {
        break;
      }

      all := all + FormatNewsList(items);
      var uniqueNews := RemoveDuplicates(ratio, stamp, all, similarityThreshold);
      if |uniqueNews| >= count {
        news := SliceTo(uniqueNews, count);
        allNews := all;
        CallsBounded(search, ratio, stamp, query, count, sort, similarityThreshold, calls);
        return;
      }

      start := start + batchSize;

      if |items| < batchSize {
        break;
      }
    }

    var uniqueNews := RemoveDuplicates(ratio, stamp, all, similarityThreshold);
    news := SliceTo(uniqueNews, count);
    allNews := all;
    if calls != [] {
      CallsBounded(search, ratio, stamp, query, count, sort, similarityThreshold, calls);
    }
  }
}
