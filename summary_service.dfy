/** Description-based summaries and title keywords
    (src/services/summary_service.py, SummaryService). */
module SummaryService {
  import opened Seqs
  import opened Text
  import opened Records

  /** The longest description kept whole. */
  const SummaryLength: nat := 100

  /** create_simple_summary: a description of at most 100 characters is
      returned as it is; a longer one is cut to its first 100 characters and
      `...` is appended. A missing description reads as the empty string. */
  function CreateSimpleSummary(item: Record): (r: string)
    ensures var d := Get(item, "description");
            && (|d| <= SummaryLength ==> r == d)
            && (|d| > SummaryLength ==> |r| == SummaryLength + 3
                                        && r[..SummaryLength] == d[..SummaryLength]
                                        && r[SummaryLength..] == "...")
    ensures |r| <= SummaryLength + 3
    ensures "description" !in item ==> r == ""
  {
    var description := Get(item, "description");
    if |description| > SummaryLength then description[..SummaryLength] + "..." else description
  }

  /** create_summary_list: one output per input, in order; each is a copy of
      its input with the field `summary` set, every other field as it was.
      The inputs are values, so the copy leaves them untouched. */
  method CreateSummaryList(newsItems: seq<Record>) returns (result: seq<Record>)
    ensures |result| == |newsItems|
    ensures forall i :: 0 <= i < |newsItems| ==>
              && result[i].Keys == newsItems[i].Keys + {"summary"}
              && result[i]["summary"] == CreateSimpleSummary(newsItems[i])
              && result[i] - {"summary"} == newsItems[i] - {"summary"}
  {
    result := [];
    var n := 0;
    while n < |newsItems|
      invariant 0 <= n <= |newsItems| && |result| == n
      invariant forall i :: 0 <= i < n ==>
                  && result[i].Keys == newsItems[i].Keys + {"summary"}
                  && result[i]["summary"] == CreateSimpleSummary(newsItems[i])
                  && result[i] - {"summary"} == newsItems[i] - {"summary"}
    {
      var item := newsItems[n];
      var summaryItem := item["summary" := CreateSimpleSummary(item)];
      assert summaryItem - {"summary"} == item - {"summary"};
      result := result + [summaryItem];
      n := n + 1;
    }
  }

  // ---------------------------------------------------------------------
  // get_keywords_from_titles

  /** `item.get('title', '').split()`. */
  function TitleWords(item: Record): seq<string> {
    Words(Get(item, "title"))
  }

  /** The whitespace-split words of every title, title after title. */
  function AllWords(items: seq<Record>): (r: seq<string>)
    ensures forall w :: w in r ==> w != [] && forall k :: 0 <= k < |w| ==> !IsSpace(w[k])
  {
    if items == [] then []
    else AllWords(items[..|items| - 1]) + TitleWords(items[|items| - 1])
  }

  /** Some title among `items` has the word `w`. */
  ghost predicate InSomeTitle(items: seq<Record>, w: string) {
    exists i :: 0 <= i < |items| && w in TitleWords(items[i])
  }

  lemma InSomeTitleSnoc(init: seq<Record>, last: Record, w: string)
    ensures InSomeTitle(init + [last], w) <==> InSomeTitle(init, w) || w in TitleWords(last)
  {
    var items := init + [last];
    if InSomeTitle(init, w) {
      var i :| 0 <= i < |init| && w in TitleWords(init[i]);
      assert items[i] == init[i];
    }
    if w in TitleWords(last) {
      assert items[|init|] == last;
    }
    if InSomeTitle(items, w) {
      var i :| 0 <= i < |items| && w in TitleWords(items[i]);
      if i < |init| {
        assert init[i] == items[i];
      }
    }
  }

  /** A word is among all words exactly when it is a word of some title. */
  lemma {:induction false} AllWordsTokens(items: seq<Record>, w: string)
    ensures w in AllWords(items) <==> InSomeTitle(items, w)
  {
    if items == [] {
      assert !InSomeTitle(items, w);
    } else {
      var init := items[..|items| - 1];
      var last := items[|items| - 1];
      assert items == init + [last];
      AllWordsTokens(init, w);
      InSomeTitleSnoc(init, last, w);
      var a := AllWords(init);
      var b := TitleWords(last);
      assert AllWords(items) == a + b;
      assert w in a + b <==> w in a || w in b;
    }
  }

  /** Words longer than one character are counted. */
  predicate Counted(w: string) {
    |w| > 1
  }

  /** The keys of the frequency dict in insertion order: the counted words,
      each at its first occurrence. */
  function FirstSeen(ws: seq<string>): (r: seq<string>)
    ensures |r| <= |ws|
  {
    if ws == [] then []
    else
      var p := FirstSeen(ws[..|ws| - 1]);
      var w := ws[|ws| - 1];
      if Counted(w) && w !in p then p + [w] else p
  }

  /** The dict's keys are distinct. */
  lemma {:induction false} FirstSeenDistinct(ws: seq<string>)
    ensures forall i, j :: 0 <= i < j < |FirstSeen(ws)| ==> FirstSeen(ws)[i] != FirstSeen(ws)[j]
  {
    if ws != [] {
      FirstSeenDistinct(ws[..|ws| - 1]);
    }
  }

  /** The dict's keys are exactly the counted words. */
  lemma FirstSeenMembers(ws: seq<string>)
    ensures forall w :: w in FirstSeen(ws) <==> w in ws && Counted(w)
  {
    forall w ensures w in FirstSeen(ws) <==> w in ws && Counted(w) {
      FirstSeenHas(ws, w);
    }
  }

  lemma {:induction false} FirstSeenHas(ws: seq<string>, w: string)
    ensures w in FirstSeen(ws) <==> w in ws && Counted(w)
  {
    if ws != [] {
      var init := ws[..|ws| - 1];
      FirstSeenHas(init, w);
      assert ws == init + [ws[|ws| - 1]];
    }
  }

  /** The dict's keys come in order of first occurrence. */
  lemma {:induction false} FirstSeenOrder(ws: seq<string>)
    ensures forall i, j :: 0 <= i < j < |FirstSeen(ws)| ==>
              IndexOf(ws, FirstSeen(ws)[i]) < IndexOf(ws, FirstSeen(ws)[j])
  {
    if ws != [] {
      var init := ws[..|ws| - 1];
      var x := ws[|ws| - 1];
      assert ws == init + [x];
      FirstSeenOrder(init);
      FirstSeenMembers(init);
      var p := FirstSeen(init);
      var r := FirstSeen(ws);
      forall i, j | 0 <= i < j < |r| ensures IndexOf(ws, r[i]) < IndexOf(ws, r[j]) {
        assert r[i] == p[i];
        IndexOfSnoc(init, x, r[i]);
        if j < |p| {
          assert r[j] == p[j];
          IndexOfSnoc(init, x, r[j]);
        } else {
          assert r[j] == x && x !in init;
          IndexOfSnoc(init, x, x);
        }
      }
    }
  }

  lemma FirstSeenSnoc(ws: seq<string>, x: string)
    ensures FirstSeen(ws + [x])
            == if Counted(x) && x !in FirstSeen(ws) then FirstSeen(ws) + [x] else FirstSeen(ws)
  {
    assert (ws + [x])[..|ws|] == ws;
  }

  lemma FrequencySnoc(ws: seq<string>, x: string, w: string)
    ensures Frequency(ws + [x], w) == Frequency(ws, w) + if w == x then 1 else 0
  {
    assert multiset(ws + [x]) == multiset(ws) + multiset{x};
  }

  /** How often `w` occurs among `ws` (the dict's value for `w`). */
  function Frequency(ws: seq<string>, w: string): (n: nat)
    ensures n > 0 <==> w in ws
  {
    multiset(ws)[w]
  }

  /** `word_count.items()`: each key with its count, in key order. */
  function Pairs(ws: seq<string>): (r: seq<(string, int)>)
    ensures |r| == |FirstSeen(ws)|
    ensures forall i :: 0 <= i < |r| ==> r[i] == (FirstSeen(ws)[i], Frequency(ws, FirstSeen(ws)[i]))
  {
    var keys := FirstSeen(ws);
    seq(|keys|, i requires 0 <= i < |keys| => (keys[i], Frequency(ws, keys[i])))
  }

  /** The sort key `lambda x: x[1]`. */
  function CountOf(p: (string, int)): int {
    p.1
  }

  /** `sorted(word_count.items(), key=lambda x: x[1], reverse=True)`. */
  function SortedCounts(ws: seq<string>): (r: seq<(string, int)>)
    ensures |r| == |FirstSeen(ws)|
  {
    SortDesc(Pairs(ws), CountOf)
  }

  /** The words of the first five sorted entries. */
  function TopWords(ws: seq<string>): (k: seq<string>)
    ensures |k| <= 5 && |k| == if |SortedCounts(ws)| < 5 then |SortedCounts(ws)| else 5
    ensures forall i :: 0 <= i < |k| ==> k[i] == SortedCounts(ws)[i].0
  {
    var top := SliceTo(SortedCounts(ws), 5);
    seq(|top|, i requires 0 <= i < |top| => top[i].0)
  }

  /** The keywords of a list of items. */
  function Keywords(items: seq<Record>): (k: seq<string>)
    ensures |k| <= 5
  {
    TopWords(AllWords(items))
  }

  /** `a` ranks above `b` among `ws`: it is more frequent, or as frequent and
      seen first. */
  predicate RanksAbove(ws: seq<string>, a: string, b: string) {
    || Frequency(ws, a) > Frequency(ws, b)
    || (Frequency(ws, a) == Frequency(ws, b) && IndexOf(ws, a) < IndexOf(ws, b))
  }

  /** Every sorted entry is an entry of the dict: a counted word and its
      frequency. */
  lemma SortedCountsEntries(ws: seq<string>)
    ensures forall m :: 0 <= m < |SortedCounts(ws)| ==>
              && SortedCounts(ws)[m].0 in FirstSeen(ws)
              && SortedCounts(ws)[m].1 == Frequency(ws, SortedCounts(ws)[m].0)
  {
    var keys := FirstSeen(ws);
    var pairs := Pairs(ws);
    var sorted := SortedCounts(ws);
    SortDescPermutes(pairs, CountOf);
    forall m | 0 <= m < |sorted|
      ensures sorted[m].0 in keys && sorted[m].1 == Frequency(ws, sorted[m].0)
    {
      assert sorted[m] in multiset(pairs);
      var q := InMultisetAt(pairs, sorted[m]);
      assert pairs[q] == (keys[q], Frequency(ws, keys[q]));
    }
  }

  /** Every counted word has an entry among the sorted ones. */
  lemma SortedCountsHas(ws: seq<string>, w: string) returns (m: nat)
    requires w in ws && Counted(w)
    ensures m < |SortedCounts(ws)| && SortedCounts(ws)[m].0 == w
  {
    FirstSeenMembers(ws);
    var keys := FirstSeen(ws);
    var pairs := Pairs(ws);
    var q := IndexOf(keys, w);
    SortDescPermutes(pairs, CountOf);
    assert pairs[q] in multiset(SortedCounts(ws));
    m := InMultisetAt(SortedCounts(ws), pairs[q]);
  }

  /** The sorted entries run from most to least frequent, ties in order of
      first occurrence. */
  lemma SortedCountsRanked(ws: seq<string>)
    ensures forall i, j :: 0 <= i < j < |SortedCounts(ws)| ==>
              RanksAbove(ws, SortedCounts(ws)[i].0, SortedCounts(ws)[j].0)
  {
    var keys := FirstSeen(ws);
    var pairs := Pairs(ws);
    var pos := (p: (string, int)) => IndexOf(ws, p.0);
    var sorted := SortedCounts(ws);
    FirstSeenOrder(ws);
    assert forall i, j :: 0 <= i < j < |pairs| ==> pos(pairs[i]) < pos(pairs[j]) by {
      forall i, j | 0 <= i < j < |pairs| ensures pos(pairs[i]) < pos(pairs[j]) {
        assert pairs[i].0 == keys[i] && pairs[j].0 == keys[j];
      }
    }
    SortDescRanked(pairs, CountOf, pos);
    SortedCountsEntries(ws);
    forall i, j | 0 <= i < j < |sorted| ensures RanksAbove(ws, sorted[i].0, sorted[j].0) {
      assert Precedes(CountOf, pos, sorted[i], sorted[j]);
    }
  }

  /** get_keywords_from_titles: the keywords are at most five distinct words
      of the titles, each longer than one character, listed from most to
      least frequent with ties in order of first occurrence; and every
      counted word left out ranks below all five that were chosen. */
  lemma KeywordsProperties(items: seq<Record>)
    ensures var ws := AllWords(items);
            var k := Keywords(items);
            && |k| <= 5
            && (forall i :: 0 <= i < |k| ==> k[i] in ws && Counted(k[i]))
            && (forall i, j :: 0 <= i < j < |k| ==> k[i] != k[j])
            && (forall i, j :: 0 <= i < j < |k| ==> RanksAbove(ws, k[i], k[j]))
            && (forall w :: w in ws && Counted(w) && w !in k ==>
                  |k| == 5 && forall i :: 0 <= i < 5 ==> RanksAbove(ws, k[i], w))
  {
    var ws := AllWords(items);
    var k := Keywords(items);
    FirstSeenMembers(ws);
    SortedCountsEntries(ws);
    SortedCountsRanked(ws);
    forall w | w in ws && Counted(w) && w !in k
      ensures |k| == 5 && forall i :: 0 <= i < 5 ==> RanksAbove(ws, k[i], w)
    {
      var m := SortedCountsHas(ws, w);
      assert m >= |k|;
    }
  }

  /** The dict after counting `ws`: its keys in insertion order are the
      counted words at their first occurrence, and each key maps to its
      frequency. */
  ghost predicate Tally(ws: seq<string>, order: seq<string>, wordCount: map<string, nat>) {
    && order == FirstSeen(ws)
    && (forall w :: w in wordCount <==> w in order)
    && (forall w :: w in wordCount ==> wordCount[w] == Frequency(ws, w))
  }

  /** One more word: a counted word is added at the end of the key order
      when new and its count goes up by one; any other word changes nothing. */
  lemma TallySnoc(ws: seq<string>, n: nat, order: seq<string>, wordCount: map<string, nat>,
                  order': seq<string>, wordCount': map<string, nat>)
    requires n < |ws| && Tally(ws[..n], order, wordCount)
    requires var x := ws[n]; order' == if Counted(x) && x !in wordCount then order + [x] else order
    requires var x := ws[n];
             wordCount' == if Counted(x) then wordCount[x := (if x in wordCount then wordCount[x] else 0) + 1]
                           else wordCount
    ensures Tally(ws[..n + 1], order', wordCount')
  {
    assert ws[..n + 1] == ws[..n] + [ws[n]];
    if Counted(ws[n]) {
      TallyCounted(ws[..n], ws[n], order, wordCount);
    } else {
      TallySkipped(ws[..n], ws[n], order, wordCount);
    }
  }

  lemma TallyCounted(ws: seq<string>, x: string, order: seq<string>, wordCount: map<string, nat>)
    requires Tally(ws, order, wordCount) && Counted(x)
    ensures Tally(ws + [x], if x !in wordCount then order + [x] else order,
                  wordCount[x := (if x in wordCount then wordCount[x] else 0) + 1])
  {
    FirstSeenSnoc(ws, x);
    var wc := wordCount[x := (if x in wordCount then wordCount[x] else 0) + 1];
    forall w | w in wc ensures wc[w] == Frequency(ws + [x], w) {
      FrequencySnoc(ws, x, w);
      if w == x && x !in wordCount {
        FirstSeenHas(ws, x);
      }
    }
  }

  lemma TallySkipped(ws: seq<string>, x: string, order: seq<string>, wordCount: map<string, nat>)
    requires Tally(ws, order, wordCount) && !Counted(x)
    ensures Tally(ws + [x], order, wordCount)
  {
    FirstSeenSnoc(ws, x);
    forall w | w in wordCount ensures wordCount[w] == Frequency(ws + [x], w) {
      FrequencySnoc(ws, x, w);
      FirstSeenHas(ws, w);
    }
  }

  /** The counting loop: the dict's keys in insertion order, and its
      entries. Only words longer than one character are counted. */
  method CountWords(allWords: seq<string>) returns (order: seq<string>, wordCount: map<string, nat>)
    ensures order == FirstSeen(allWords)
    ensures forall w :: w in wordCount <==> w in order
    ensures forall w :: w in wordCount ==> wordCount[w] == Frequency(allWords, w)
  {
    order := [];
    wordCount := map[];
    var m := 0;
    while m < |allWords|
      invariant 0 <= m <= |allWords|
      invariant Tally(allWords[..m], order, wordCount)
    {
      var word := allWords[m];
      ghost var order0, wordCount0 := order, wordCount;
      if Counted(word) {
        var c := if word in wordCount then wordCount[word] else 0;
        if word !in wordCount {
          order := order + [word];
        }
        wordCount := wordCount[word := c + 1];
      }
      TallySnoc(allWords, m, order0, wordCount0, order, wordCount);
      m := m + 1;
    }
    assert allWords[..|allWords|] == allWords;
  }

  /** The method thread by thread: collect the words, count them into a dict
      that remembers insertion order, sort the entries by count (stable,
      largest first) and keep the first five words. */
  method GetKeywordsFromTitles(newsItems: seq<Record>) returns (keywords: seq<string>)
    ensures keywords == Keywords(newsItems)
  {
    var allWords: seq<string> := [];
    var n := 0;
    while n < |newsItems|
      invariant 0 <= n <= |newsItems|
      invariant allWords == AllWords(newsItems[..n])
    {
      var title := Get(newsItems[n], "title");
      var words := Words(title);
      assert words == TitleWords(newsItems[..n + 1][n]);
      assert newsItems[..n + 1][..n] == newsItems[..n];
      allWords := allWords + words;
      n := n + 1;
    }
    assert newsItems[..|newsItems|] == newsItems;

    var order, wordCount := CountWords(allWords);
    var items := seq(|order|, i requires 0 <= i < |order| => (order[i], wordCount[order[i]] as int));
    assert items == Pairs(allWords);
    assert allWords == AllWords(newsItems);
    var sortedWords := SortDesc(items, CountOf);
    var top := SliceTo(sortedWords, 5);
    keywords := seq(|top|, i requires 0 <= i < |top| => top[i].0);
  }
}
