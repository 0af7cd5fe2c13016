/** Near-duplicate removal (src/utils/deduplicator.py, NewsDeduplicator).

    Two collaborators are left abstract and passed in as parameters:
    - `ratio`, the score difflib's SequenceMatcher(None, a, b).ratio()
      computes; all the model knows is that it lies in [0, 1];
    - `stamp`, parse_pub_date: the Unix time of a date string (a date that
      does not parse yields the current time, inside the oracle). */
module Deduplicator {
  import opened Seqs
  import opened Text
  import opened Records

  type Ratio = f: (string, string) -> real | forall a, b :: 0.0 <= f(a, b) <= 1.0
    witness (a: string, b: string) => 0.0

  /** calculate_similarity: the ratio of the lower-cased texts. */
  function CalculateSimilarity(ratio: Ratio, text1: string, text2: string): (r: real)
    ensures 0.0 <= r <= 1.0
  {
    ratio(Lower(text1), Lower(text2))
  }

  /** The score does not see case: lower-casing either input first changes
      nothing. */
  lemma SimilarityIgnoresCase(ratio: Ratio, text1: string, text2: string)
    ensures CalculateSimilarity(ratio, text1, text2)
         == CalculateSimilarity(ratio, Lower(text1), Lower(text2))
  {
    LowerIdempotent(text1);
    LowerIdempotent(text2);
  }

  /** are_similar_news: the titles or the descriptions (a missing field reads
      as '') score at least `threshold`. */
  function AreSimilarNews(ratio: Ratio, news1: Record, news2: Record, threshold: real): (b: bool)
    ensures threshold <= 0.0 ==> b
    ensures threshold > 1.0 ==> !b
  {
    var titleSimilarity := CalculateSimilarity(ratio, Get(news1, "title"), Get(news2, "title"));
    var descSimilarity := CalculateSimilarity(ratio, Get(news1, "description"), Get(news2, "description"));
    titleSimilarity >= threshold || descSimilarity >= threshold
  }

  /** Raising the threshold can only make fewer pairs similar. */
  lemma AreSimilarNewsMonotone(ratio: Ratio, news1: Record, news2: Record, t1: real, t2: real)
    requires t1 <= t2
    ensures AreSimilarNews(ratio, news1, news2, t2) ==> AreSimilarNews(ratio, news1, news2, t1)
  {
  }

  /** The item with its title and description lower-cased (when present). */
  function LowerTexts(item: Record): (r: Record)
    ensures r.Keys == item.Keys
    ensures forall k :: k in item && k != "title" && k != "description" ==> r[k] == item[k]
    ensures "title" in item ==> r["title"] == Lower(item["title"])
    ensures "description" in item ==> r["description"] == Lower(item["description"])
  {
    map k | k in item :: if k == "title" || k == "description" then Lower(item[k]) else item[k]
  }

  /** Similarity does not see the case of the two compared fields: lower-casing
      the title and description of either item changes nothing. */
  lemma AreSimilarNewsIgnoresCase(ratio: Ratio, news1: Record, news2: Record, threshold: real)
    ensures AreSimilarNews(ratio, LowerTexts(news1), LowerTexts(news2), threshold)
        == AreSimilarNews(ratio, news1, news2, threshold)
  {
    var a, b := LowerTexts(news1), LowerTexts(news2);
    assert Lower("") == "";
    assert Get(a, "title") == Lower(Get(news1, "title"));
    assert Get(b, "title") == Lower(Get(news2, "title"));
    assert Get(a, "description") == Lower(Get(news1, "description"));
    assert Get(b, "description") == Lower(Get(news2, "description"));
    SimilarityIgnoresCase(ratio, Get(news1, "title"), Get(news2, "title"));
    SimilarityIgnoresCase(ratio, Get(news1, "description"), Get(news2, "description"));
  }

  /** `news` is similar to some item of `kept` (news on the left, as in the
      inner loop of remove_duplicates). */
  predicate HasSimilar(ratio: Ratio, threshold: real, news: Record, kept: seq<Record>) {
    exists j :: 0 <= j < |kept| && AreSimilarNews(ratio, news, kept[j], threshold)
  }

  /** Nothing is similar to an item of an empty list; with a threshold of 0
      or less, every item is similar to the first kept one. */
  lemma HasSimilarBounds(ratio: Ratio, threshold: real, news: Record, kept: seq<Record>)
    ensures kept == [] ==> !HasSimilar(ratio, threshold, news, kept)
    ensures kept != [] && threshold <= 0.0 ==> HasSimilar(ratio, threshold, news, kept)
  {
    if kept != [] && threshold <= 0.0 {
      assert AreSimilarNews(ratio, news, kept[0], threshold);
    }
  }

  lemma HasSimilarSnoc(ratio: Ratio, threshold: real, news: Record, kept: seq<Record>, x: Record)
    ensures HasSimilar(ratio, threshold, news, kept + [x])
            <==> HasSimilar(ratio, threshold, news, kept) || AreSimilarNews(ratio, news, x, threshold)
  {
    var k := kept + [x];
    assert k[|kept|] == x;
    assert forall j :: 0 <= j < |kept| ==> k[j] == kept[j];
  }

  /** The sort key of remove_duplicates: the parsed publication date. */
  function DateKey(stamp: string -> int): (key: Record -> int)
    ensures forall x :: "pubDate" in x ==> key(x) == stamp(x["pubDate"])
    ensures forall x :: "pubDate" !in x ==> key(x) == stamp("")
  {
    var key := (x: Record) => stamp(Get(x, "pubDate"));
    assert forall x :: key(x) == stamp(Get(x, "pubDate"));
    key
  }

  /** The greedy walk over `s`: an item is kept when it is similar to no item
      kept before it. */
  function Greedy(ratio: Ratio, threshold: real, s: seq<Record>): (kept: seq<Record>)
    ensures |kept| <= |s|
  {
    if s == [] then []
    else
      var prev := Greedy(ratio, threshold, s[..|s| - 1]);
      if HasSimilar(ratio, threshold, s[|s| - 1], prev) then prev else prev + [s[|s| - 1]]
  }

  /** remove_duplicates as a value: sort newest first (stably), then walk. */
  function Dedup(ratio: Ratio, stamp: string -> int, newsList: seq<Record>, threshold: real): (r: seq<Record>)
    ensures |r| <= |newsList|
    ensures newsList == [] <==> r == []
  {
    Greedy(ratio, threshold, SortDesc(newsList, DateKey(stamp)))
  }

  /** The decisions of the greedy walk, one per item of `s`. */
  function KeptMask(ratio: Ratio, threshold: real, s: seq<Record>): (mask: seq<bool>)
    ensures |mask| == |s|
  {
    if s == [] then []
    else
      var init := s[..|s| - 1];
      KeptMask(ratio, threshold, init)
        + [!HasSimilar(ratio, threshold, s[|s| - 1], Greedy(ratio, threshold, init))]
  }

  /** The decisions select exactly what the walk keeps. */
  lemma {:induction false} KeptMaskSelects(ratio: Ratio, threshold: real, s: seq<Record>)
    ensures Select(s, KeptMask(ratio, threshold, s)) == Greedy(ratio, threshold, s)
  {
    if s != [] {
      var init, x := s[..|s| - 1], s[|s| - 1];
      var b := !HasSimilar(ratio, threshold, x, Greedy(ratio, threshold, init));
      KeptMaskSelects(ratio, threshold, init);
      assert s == init + [x];
      SelectSnoc(init, KeptMask(ratio, threshold, init), x, b);
    }
  }

  // ---------------------------------------------------------------------
  // Properties of the greedy walk

  /** Each decision looks only at what was kept before: item i is kept
      exactly when it is similar to none of the items kept among the first i. */
  lemma {:induction false} GreedyDecisions(ratio: Ratio, threshold: real, s: seq<Record>, i: nat)
    requires i < |s|
    ensures KeptMask(ratio, threshold, s)[i]
        <==> !HasSimilar(ratio, threshold, s[i], Greedy(ratio, threshold, s[..i]))
  {
    var init := s[..|s| - 1];
    if i < |init| {
      GreedyDecisions(ratio, threshold, init, i);
      assert init[..i] == s[..i];
    } else {
      assert s[..i] == init;
    }
  }

  /** What is kept is never dropped later: the walk over a prefix of `s`
      yields a prefix of the walk over `s`. */
  lemma {:induction false} GreedyPrefix(ratio: Ratio, threshold: real, s: seq<Record>, i: nat)
    requires i <= |s|
    ensures var p := Greedy(ratio, threshold, s[..i]);
            var g := Greedy(ratio, threshold, s);
            |p| <= |g| && g[..|p|] == p
    decreases |s|
  {
    if i == |s| {
      assert s[..i] == s;
    } else {
      var init := s[..|s| - 1];
      GreedyPrefix(ratio, threshold, init, i);
      assert init[..i] == s[..i];
    }
  }

  /** Greedy maximality: an item is dropped exactly when it is similar to an
      item kept before it, and that item is in the final result. */
  lemma GreedyMaximal(ratio: Ratio, threshold: real, s: seq<Record>, i: nat)
    requires i < |s|
    ensures var before := |Greedy(ratio, threshold, s[..i])|;
            var g := Greedy(ratio, threshold, s);
            before <= |g| &&
            (!KeptMask(ratio, threshold, s)[i] <==>
               exists j :: 0 <= j < before && AreSimilarNews(ratio, s[i], g[j], threshold))
  {
    GreedyDecisions(ratio, threshold, s, i);
    GreedyPrefix(ratio, threshold, s, i);
    var p := Greedy(ratio, threshold, s[..i]);
    var g := Greedy(ratio, threshold, s);
    assert forall j :: 0 <= j < |p| ==> g[j] == p[j];
  }

  /** No item of `g` is similar to an item before it. */
  ghost predicate NoneSimilarToEarlier(ratio: Ratio, threshold: real, g: seq<Record>) {
    forall i, j :: 0 <= i < j < |g| ==> !AreSimilarNews(ratio, g[j], g[i], threshold)
  }

  /** No kept item is similar to an item kept before it. */
  lemma {:induction false} GreedyPairwise(ratio: Ratio, threshold: real, s: seq<Record>)
    ensures NoneSimilarToEarlier(ratio, threshold, Greedy(ratio, threshold, s))
  {
    if s != [] {
      var prev := Greedy(ratio, threshold, s[..|s| - 1]);
      GreedyPairwise(ratio, threshold, s[..|s| - 1]);
      if !HasSimilar(ratio, threshold, s[|s| - 1], prev) {
        var g := prev + [s[|s| - 1]];
        forall i, j | 0 <= i < j < |g| ensures !AreSimilarNews(ratio, g[j], g[i], threshold) {
          if j == |prev| {
            assert g[i] == prev[i] && g[j] == s[|s| - 1];
            assert !AreSimilarNews(ratio, s[|s| - 1], prev[i], threshold);
          } else {
            assert g[i] == prev[i] && g[j] == prev[j];
            assert !AreSimilarNews(ratio, prev[j], prev[i], threshold);
          }
        }
        assert Greedy(ratio, threshold, s) == g;
      }
    }
  }

  /** The first item is always kept. */
  lemma {:induction false} GreedyKeepsFirst(ratio: Ratio, threshold: real, s: seq<Record>)
    requires |s| > 0
    ensures |Greedy(ratio, threshold, s)| > 0 && Greedy(ratio, threshold, s)[0] == s[0]
  {
    if |s| > 1 {
      GreedyKeepsFirst(ratio, threshold, s[..|s| - 1]);
    } else {
      assert s[..0] == [];
    }
  }

  /** With a threshold of zero or less everything is a duplicate of the first
      item, so exactly one item survives. */
  lemma {:induction false} GreedyNonPositiveThreshold(ratio: Ratio, threshold: real, s: seq<Record>)
    requires threshold <= 0.0 && |s| > 0
    ensures Greedy(ratio, threshold, s) == [s[0]]
  {
    if |s| > 1 {
      var init := s[..|s| - 1];
      GreedyNonPositiveThreshold(ratio, threshold, init);
      assert init[0] == s[0];
      assert HasSimilar(ratio, threshold, s[|s| - 1], [s[0]]) by {
        assert AreSimilarNews(ratio, s[|s| - 1], [s[0]][0], threshold);
      }
    } else {
      assert s[..0] == [];
    }
  }

  /** What remove_duplicates returns: a subsequence of the input sorted
      newest first, with non-increasing timestamps, items drawn from the input,
      no kept item similar to an earlier kept one, and a non-empty result for
      a non-empty input, led by the newest item. */
  lemma DedupProperties(ratio: Ratio, stamp: string -> int, newsList: seq<Record>, threshold: real)
    ensures var sorted := SortDesc(newsList, DateKey(stamp));
            var d := Dedup(ratio, stamp, newsList, threshold);
            && IsSubsequence(d, sorted)
            && SortedDesc(d, DateKey(stamp))
            && multiset(d) <= multiset(newsList)
            && |d| <= |newsList|
            && NoneSimilarToEarlier(ratio, threshold, d)
            && (|newsList| > 0 ==> |d| > 0 && d[0] == sorted[0])
  {
    var sorted := SortDesc(newsList, DateKey(stamp));
    var mask := KeptMask(ratio, threshold, sorted);
    KeptMaskSelects(ratio, threshold, sorted);
    SortDescSorted(newsList, DateKey(stamp));
    SortDescPermutes(newsList, DateKey(stamp));
    SelectMultiset(sorted, mask);
    SelectSorted(sorted, mask, DateKey(stamp));
    GreedyPairwise(ratio, threshold, sorted);
    if |newsList| > 0 {
      GreedyKeepsFirst(ratio, threshold, sorted);
    }
  }

  // ---------------------------------------------------------------------
  // The imperative code

  /** The inner loop of remove_duplicates: scan the kept items in order and
      stop at the first one similar to `news`. */
  method IsDuplicateOf(ratio: Ratio, similarityThreshold: real, news: Record, uniqueNews: seq<Record>)
    returns (isDuplicate: bool)
    ensures isDuplicate == HasSimilar(ratio, similarityThreshold, news, uniqueNews)
  {
    isDuplicate := false;
    var j := 0;
    while j < |uniqueNews|
      invariant 0 <= j <= |uniqueNews|
      invariant !HasSimilar(ratio, similarityThreshold, news, uniqueNews[..j])
    {
      if AreSimilarNews(ratio, news, uniqueNews[j], similarityThreshold) {
        isDuplicate := true;
        return;
      }
      HasSimilarSnoc(ratio, similarityThreshold, news, uniqueNews[..j], uniqueNews[j]);
      assert uniqueNews[..j + 1] == uniqueNews[..j] + [uniqueNews[j]];
      j := j + 1;
    }
    assert uniqueNews[..j] == uniqueNews;
  }

  /** remove_duplicates: sort newest first, then keep each item that is
      similar to no item kept so far (flag and break, as in the source). */
  method RemoveDuplicates(ratio: Ratio, stamp: string -> int, newsList: seq<Record>, similarityThreshold: real)
    returns (uniqueNews: seq<Record>)
    ensures uniqueNews == Dedup(ratio, stamp, newsList, similarityThreshold)
    ensures newsList == [] ==> uniqueNews == []
  {
    if newsList == [] {
      return [];
    }
    var sortedNews := SortDesc(newsList, DateKey(stamp));
    uniqueNews := [];
    var i := 0;
    while i < |sortedNews|
      invariant 0 <= i <= |sortedNews|
      invariant uniqueNews == Greedy(ratio, similarityThreshold, sortedNews[..i])
    {
      var news := sortedNews[i];
      var isDuplicate := IsDuplicateOf(ratio, similarityThreshold, news, uniqueNews);
      GreedyStep(ratio, similarityThreshold, sortedNews, i);
      ghost var next := Greedy(ratio, similarityThreshold, sortedNews[..i + 1]);
      if !isDuplicate {
        uniqueNews := uniqueNews + [news];
      }
      assert uniqueNews == next;
      i := i + 1;
    }
    assert sortedNews[..i] == sortedNews;
  }

  /** One step of the walk: the walk over the first i + 1 items keeps what
      the walk over the first i kept, plus item i unless it has a similar
      item among those. */
  lemma GreedyStep(ratio: Ratio, threshold: real, s: seq<Record>, i: nat)
    requires i < |s|
    ensures var kept := Greedy(ratio, threshold, s[..i]);
            Greedy(ratio, threshold, s[..i + 1])
            == if HasSimilar(ratio, threshold, s[i], kept) then kept else kept + [s[i]]
  {
    assert s[..i + 1][..i] == s[..i];
  }

  /** get_duplicate_count: how many items remove_duplicates drops. */
  method GetDuplicateCount(ratio: Ratio, stamp: string -> int, newsList: seq<Record>, similarityThreshold: real)
    returns (count: int)
    ensures count == |newsList| - |Dedup(ratio, stamp, newsList, similarityThreshold)|
    ensures 0 <= count <= |newsList|
    ensures |newsList| > 0 ==> count < |newsList|
  {
    var uniqueList := RemoveDuplicates(ratio, stamp, newsList, similarityThreshold);
    DedupProperties(ratio, stamp, newsList, similarityThreshold);
    count := |newsList| - |uniqueList|;
  }
}
