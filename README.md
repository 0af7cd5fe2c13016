# News search and deduplication, modelled in Dafny

This project models the search-and-deduplicate pipeline of a small Python news
search application. Five pieces of logic are modelled, each in its own module:

- **Deduplicator** (`deduplicator.dfy`, from `src/utils/deduplicator.py`):
  `NewsDeduplicator`. The similarity score is the ratio of the lower-cased
  texts. Two items are similar when their titles or their descriptions score at
  least the threshold. `remove_duplicates` sorts newest first and then keeps
  each item that is similar to no item kept so far. `get_duplicate_count`
  counts what was dropped.
- **NewsService** (`news_service.dfy`, from `src/services/news_service.py`):
  the paging loop of `search_and_format`. It fetches pages of
  `min(100, 2 * count)` items, formats them and adds them to a pool. It
  re-deduplicates the pool after every page. It stops when one of these holds:
  the target is reached, the page is empty, the page is short, or the pool
  reaches `3 * count`.
- **Formatter** (`formatter.dfy`, from `src/utils/formatter.py`):
  - `remove_html_tags`, the substitution of the lazy regex `<.*?>`, whose
    `.` does not match a newline. It is modelled as a recursive scan.
  - `format_news_item` and `format_news_list`.
- **SummaryService** (`summary_service.dfy`, from
  `src/services/summary_service.py`):
  - the 100-character description summary;
  - the summary list;
  - the top-five title keywords. These come from an insertion-ordered word
    count, sorted stably by count.
- **ResponseParser** (`response_parser.dfy`, from `src/api/openai_api.py`):
  the parsing of the chat model's reply into a summary and its `-` key points.

Supporting modules:

- `Records`: an item is a `map<string, string>`, read with `.get(key, '')`.
- `Seqs`: selection by a boolean mask, which is what "subsequence" means here;
  Python's `s[:n]`; and Python's `sorted(..., key=k, reverse=True)` as a
  stable insertion sort, with its sortedness, permutation and stability proved.
- `Text`: Python's `lower`, `strip`, `strip(chars)`, `split()`, `split(sep)`,
  `sep.join` and `replace(pat, '')` on `string`.

The code that changes state step by step is written as methods with loops.
Most loops are proved against a specification function, and the properties
the source promises are proved as lemmas about that function; the loop of
`create_summary_list` is proved directly against its own postcondition. This
covers:

- `remove_duplicates` and its inner loop;
- `search_and_format`;
- `create_summary_list`;
- the word collection and the word-count loop of `get_keywords_from_titles`.

The expression-only code is written as functions.

Collaborators that cannot be seen are parameters:

- `search: Request -> seq<Record>`: the news API, returning the list under
  `items`, where a missing key reads as `[]`.
- `ratio`: difflib's `SequenceMatcher(None, a, b).ratio()`. The model knows
  only that it lies in [0, 1].
- `stamp: string -> int`: `parse_pub_date`.
- The chat model's reply text: `ResponseParser.ParseResponse` takes it as its
  argument.

## Model

| member | source | states |
|---|---|---|
| Deduplicator.CalculateSimilarity | src/utils/deduplicator.py:10-21 | the similarity is the ratio of the two lower-cased texts and lies in [0, 1] |
| Deduplicator.SimilarityIgnoresCase | src/utils/deduplicator.py:21 | lower-casing either input first does not change the score |
| Deduplicator.AreSimilarNews | src/utils/deduplicator.py:24-49 | a threshold of 0 or less makes every pair similar; a threshold above 1 makes no pair similar |
| Deduplicator.AreSimilarNewsMonotone | src/utils/deduplicator.py:49 | a pair similar at some threshold is similar at every lower threshold |
| Deduplicator.AreSimilarNewsIgnoresCase | src/utils/deduplicator.py:21-49 | lower-casing the title and the description of either item does not change whether the two are similar |
| Deduplicator.HasSimilar | src/utils/deduplicator.py:98-102 | some kept item is similar to the item, the item on the left of the comparison, as the inner loop calls it; `HasSimilarBounds`, `HasSimilarSnoc` and `IsDuplicateOf` state its properties |
| Deduplicator.HasSimilarBounds | src/utils/deduplicator.py:98-102 | no item has a similar item among none; with a threshold of 0 or less, every item has a similar item among a non-empty list |
| Deduplicator.HasSimilarSnoc | src/utils/deduplicator.py:99-102 | an item has a similar item among `kept + [x]` iff it has one among `kept` or is similar to `x` |
| Deduplicator.DateKey | src/utils/deduplicator.py:91 | the sort key of an item is the parsed `pubDate`; an item without one is keyed by the parse of '' |
| Deduplicator.Greedy | src/utils/deduplicator.py:95-105 | the greedy walk keeps no more items than it is given |
| Deduplicator.KeptMask | src/utils/deduplicator.py:95-105 | there is one keep/drop decision per item of the sorted list |
| Deduplicator.KeptMaskSelects | src/utils/deduplicator.py:95-105 | the items whose decision is "keep" are exactly the walk's result, in order |
| Deduplicator.GreedyDecisions | src/utils/deduplicator.py:96-105 | item i is kept iff it is similar to none of the items kept among the first i |
| Deduplicator.GreedyPrefix | src/utils/deduplicator.py:104-105 | a kept item is never removed: the walk over a prefix is a prefix of the walk over the whole list |
| Deduplicator.GreedyMaximal | src/utils/deduplicator.py:99-102 | an item is dropped iff it is similar to an item that was kept before it and is in the final result |
| Deduplicator.GreedyPairwise | src/utils/deduplicator.py:96-105 | no kept item is similar to an item kept before it |
| Deduplicator.GreedyKeepsFirst | src/utils/deduplicator.py:95-105 | for a non-empty list, the first item is always kept and is the first of the result |
| Deduplicator.GreedyNonPositiveThreshold | src/utils/deduplicator.py:95-105 | with a threshold of 0 or less, the result is exactly the first item |
| Deduplicator.Dedup | src/utils/deduplicator.py:85-107 | remove_duplicates as a value: never longer than its input, and empty exactly when the input is empty; `DedupProperties` states the rest |
| Deduplicator.DedupProperties | src/utils/deduplicator.py:74-107 | the result is a subsequence of the input sorted newest first; its timestamps do not increase; its items are drawn from the input and it is no longer than the input; no kept item is similar to an earlier kept one; a non-empty input gives a non-empty result, led by the newest item |
| Deduplicator.IsDuplicateOf | src/utils/deduplicator.py:98-102 | the flag-and-break inner loop returns true iff some kept item is similar to the item |
| Deduplicator.RemoveDuplicates | src/utils/deduplicator.py:74-107 | the nested loops compute the greedy walk over the stable newest-first sort; an empty input gives [] |
| Deduplicator.GetDuplicateCount | src/utils/deduplicator.py:110-122 | the count is the input length minus the deduplicated length; it lies between 0 and the input length, and is below the input length for a non-empty input |
| Seqs.SortDesc | src/utils/deduplicator.py:89-93 | `sorted(..., key=k, reverse=True)` as a stable insertion sort, as long as its input; `SortDescPermutes`, `SortDescSorted` and `SortDescStable` state what it means |
| Seqs.SortDescPermutes | src/utils/deduplicator.py:89-93 | `sorted` returns a permutation of its input |
| Seqs.SortDescSorted | src/utils/deduplicator.py:89-93 | `sorted(..., reverse=True)` returns keys in non-increasing order |
| Seqs.SortDescStable | src/utils/deduplicator.py:89-93 | the sort is stable: the items with equal keys keep their input order |
| Seqs.InsertPermutes | src/utils/deduplicator.py:89-93 | one insertion step adds exactly the inserted item |
| Seqs.InsertSorted | src/utils/deduplicator.py:89-93 | inserting into a key-sorted list keeps it key-sorted |
| Seqs.SelectSorted | src/utils/deduplicator.py:104-105 | a selection from a key-sorted list is key-sorted |
| Seqs.SelectMultiset | src/utils/deduplicator.py:104-105 | a selection takes each element at most as often as the source has it |
| Seqs.SortDescRanked | src/services/summary_service.py:66 | for input in first-occurrence order, the sort places larger keys first and equal keys in first-occurrence order |
| Seqs.SliceTo | src/services/news_service.py:73 | Python's `s[:n]` is a prefix of `s`, of length `min(n, len(s))` for `n >= 0`; a negative `n` counts from the end |
| Records.Get | src/utils/formatter.py:23-27 | `item.get(key, '')` is the field's value when present and '' otherwise |
| Formatter.CloseAt | src/utils/formatter.py:8-9 | where the lazy `.*?>` ends: the first `>` with no newline or `>` before it; there is none iff no `>` comes before the next newline |
| Formatter.RemoveHtmlTags | src/utils/formatter.py:6-9 | the tag scan never lengthens its input |
| Formatter.KeptChars | src/utils/formatter.py:9 | the output is the selection of the input's characters by a mask as long as the input |
| Formatter.RemoveHtmlTagsSubsequence | src/utils/formatter.py:6-9 | the output is a subsequence of the input: characters are only deleted |
| Formatter.RemovesShortestTag | src/utils/formatter.py:8-9 | `<`, then text free of `>` and newlines, then `>`, is deleted, and the scan resumes after it |
| Formatter.KeepsUnclosedBracket | src/utils/formatter.py:8-9 | a `<` with no `>` later on its line is kept |
| Formatter.LineOpenPreserved | src/utils/formatter.py:8-9 | text with no `>` before its first newline keeps that property after substitution |
| Formatter.RemoveHtmlTagsTagFree | src/utils/formatter.py:8-9 | the output holds no `<` followed by a `>` on the same line |
| Formatter.RemoveHtmlTagsFixed | src/utils/formatter.py:8-9 | tag-free text is returned unchanged |
| Formatter.RemoveHtmlTagsNoBracket | src/utils/formatter.py:8-9 | text containing no `<` is returned unchanged |
| Formatter.RemoveHtmlTagsIdempotent | src/utils/formatter.py:8-9 | stripping tags twice is stripping them once |
| Formatter.FormatNewsItem | src/utils/formatter.py:12-28 | the item has exactly the keys title, description, link, originallink and pubDate; title and description are tag-stripped; the other three are copied; missing fields become '' |
| Formatter.FormatNewsItemTagFree | src/utils/formatter.py:22-28 | a formatted title and description hold no tag, and formatting a formatted item changes nothing |
| Formatter.FormatNewsList | src/utils/formatter.py:31-41 | the same length and order, with each item formatted |
| Formatter.FormatNewsListAppend | src/utils/formatter.py:41 | formatting page by page and concatenating is formatting the concatenated pages |
| NewsService.BatchSize | src/services/news_service.py:46 | the page size is `min(100, 2 * count)` |
| NewsService.Pool | src/services/news_service.py:43-63 | the collected news after a sequence of calls: each call appends its formatted page; `PoolFormatsPages` shows it is every fetched item, formatted, in fetch order |
| NewsService.PoolFormatsPages | src/services/news_service.py:62-63 | the pool is every fetched item, formatted, in fetch order |
| NewsService.OffsetIsProduct | src/services/news_service.py:76 | k page advances of `b` move the start by `k * b` |
| NewsService.History | src/services/news_service.py:44-80 | the calls the loop makes, call by call: each asks for the next page of `min(100, 2 * count)` items, is made while the pool is below `3 * count`, and follows a call that did not stop the loop; `HistoryMeans` states it for all calls at once |
| NewsService.Stopped | src/services/news_service.py:48-80 | why the loop ends after its last call: an empty page, the target reached after deduplication, a short page, or a pool at `3 * count`; the loop's postcondition uses it |
| NewsService.HistoryMeans | src/services/news_service.py:44-80 | the history holds iff call k asks for `min(100, 2 * count)` items at start `1 + k * batch`, every call was made with the pool below `3 * count`, and every call but the last returned a full, non-empty page whose pool was still short of the target |
| NewsService.HistoryToParts | src/services/news_service.py:44-80 | the call-by-call history gives the three all-calls properties |
| NewsService.PartsToHistory | src/services/news_service.py:44-80 | the three all-calls properties give the call-by-call history |
| NewsService.FullPages | src/services/news_service.py:79-80 | before call k, the pool holds at least k full pages |
| NewsService.CallBound | src/services/news_service.py:48 | c - 1 full pages below the ceiling bound c by ceil(ceiling / batch) |
| NewsService.CeilDivIsQuotient | src/services/news_service.py:45-48 | the bound on the number of calls, counted by repeated subtraction, is `(a + b - 1) // b`, the ceiling of `a / b` |
| NewsService.CallsBounded | src/services/news_service.py:45-48 | a call is made only when `3 * count > 0`, and for `count >= 1` there are at most ceil(3 * count / batch) calls |
| NewsService.FetchDeduplicated | src/services/news_service.py:42-88 | the deduplicating branch: the calls follow the history; the pool is the formatted pages in fetch order; no call is made iff `3 * count <= 0`; the last call stopped the loop for one of the reasons in `Stopped`; at most ceil(3 * count / batch) calls; the result is the deduplicated pool cut to `count`, and [] for `count <= 0` |
| NewsService.SearchAndFormat | src/services/news_service.py:15-88 | without deduplication, one call for `count` items, returned formatted. With it, everything `FetchDeduplicated` states: the calls follow the history; the pool is the formatted pages in fetch order; no call is made iff `3 * count <= 0`; the last call stopped the loop for one of the reasons in `Stopped`; at most ceil(3 * count / batch) calls; the result is the deduplicated pool cut to `count`, and [] for `count <= 0` |
| SummaryService.CreateSimpleSummary | src/services/summary_service.py:9-21 | a description of at most 100 characters is returned as is; a longer one becomes its first 100 characters plus `...` (length 103); a missing description gives '' |
| SummaryService.CreateSummaryList | src/services/summary_service.py:24-39 | one output per input, in order; each is its input with `summary` set to the simple summary and every other field unchanged |
| SummaryService.TitleWords | src/services/summary_service.py:55-56 | `item.get('title', '').split()`: the `Words` of the title, each non-empty and free of whitespace |
| SummaryService.InSomeTitleSnoc | src/services/summary_service.py:54-57 | a word is in some title of `init + [last]` iff it is in some title of `init` or in the title of `last` |
| SummaryService.AllWords | src/services/summary_service.py:53-57 | every collected word is non-empty and holds no whitespace; `AllWordsTokens` says which words they are |
| SummaryService.AllWordsTokens | src/services/summary_service.py:53-57 | a word is among all the collected words iff it is a whitespace-split word of some title |
| SummaryService.Counted | src/services/summary_service.py:62 | the filter `len(word) > 1` |
| SummaryService.FirstSeen | src/services/summary_service.py:60-63 | the dict's keys, in insertion order: no more keys than words |
| SummaryService.FirstSeenDistinct | src/services/summary_service.py:60-63 | no key occurs twice |
| SummaryService.FirstSeenMembers | src/services/summary_service.py:60-63 | the dict's keys are exactly the counted words, those longer than one character |
| SummaryService.FirstSeenHas | src/services/summary_service.py:60-63 | a word is a key iff it occurs and is longer than one character |
| SummaryService.FirstSeenOrder | src/services/summary_service.py:60-63 | the keys come in order of first occurrence |
| SummaryService.FrequencySnoc | src/services/summary_service.py:63 | one more word raises its own count by one and no other count |
| SummaryService.Frequency | src/services/summary_service.py:60-63 | a word's count is positive iff it occurs |
| SummaryService.Pairs | src/services/summary_service.py:66 | `word_count.items()`: each key, in key order, with its frequency |
| SummaryService.CountOf | src/services/summary_service.py:66 | the sort key `lambda x: x[1]`, the count of an entry |
| SummaryService.SortedCounts | src/services/summary_service.py:66 | the sorted entries are as many as the keys |
| SummaryService.TopWords | src/services/summary_service.py:67 | the words of the first `min(5, entries)` sorted entries |
| SummaryService.Keywords | src/services/summary_service.py:42-67 | at most five keywords |
| SummaryService.SortedCountsEntries | src/services/summary_service.py:66 | every sorted entry is a key with its frequency |
| SummaryService.SortedCountsHas | src/services/summary_service.py:60-66 | every counted word has a sorted entry |
| SummaryService.SortedCountsRanked | src/services/summary_service.py:66 | the sorted entries run from most to least frequent, ties in first-occurrence order |
| SummaryService.KeywordsProperties | src/services/summary_service.py:42-67 | at most five keywords, distinct, each a title word longer than one character, in non-increasing frequency with ties in first-occurrence order; any counted word left out ranks below all five chosen |
| SummaryService.TallySnoc | src/services/summary_service.py:61-63 | one loop step keeps the dict equal to the first-seen keys with their frequencies |
| SummaryService.TallyCounted | src/services/summary_service.py:62-63 | a counted word is added at the end of the keys when new, and its count goes up by one |
| SummaryService.TallySkipped | src/services/summary_service.py:62 | a one-character word changes nothing |
| SummaryService.CountWords | src/services/summary_service.py:60-63 | the counting loop yields the keys in first-occurrence order, and each key maps to its frequency |
| SummaryService.GetKeywordsFromTitles | src/services/summary_service.py:42-67 | the loops, the stable sort and the cut to five compute `Keywords` |
| Text.IsSpace | src/services/summary_service.py:56 | the characters `str.isspace` accepts, which `split()` and `strip()` use: ASCII whitespace, the separators U+001C-U+001F, U+0085, U+00A0, U+1680, U+2000-U+200A, U+2028, U+2029, U+202F, U+205F and U+3000 |
| Text.Lower | src/utils/deduplicator.py:21 | `lower()` keeps the length |
| Text.LowerMeans | src/utils/deduplicator.py:21 | no ASCII capital is left, and every other character stays where it was |
| Text.LowerIdempotent | src/utils/deduplicator.py:21 | lower-casing twice is lower-casing once |
| Text.TrimIsSlice | src/api/openai_api.py:102 | `strip(chars)` cuts only dropped characters from the two ends: the result is a contiguous piece of the input |
| Text.Trim | src/api/openai_api.py:102 | `strip(chars)` never lengthens the text, and the result neither starts nor ends with a stripped character |
| Text.Strip | src/api/openai_api.py:96 | the stripped text neither starts nor ends with whitespace |
| Text.Find | src/api/openai_api.py:95 | the first occurrence of the separator, or none at all |
| Text.SplitOn | src/api/openai_api.py:95 | `split(sep)` gives at least one part, no part holds the separator, and joining the parts with it gives back the text |
| Text.SplitOnLeftmost | src/api/openai_api.py:95 | the split is leftmost: without an occurrence the text is its only part, and otherwise the first part is the text before the first occurrence |
| Text.SplitOnJoin | src/api/openai_api.py:103 | splitting on a one-character separator undoes joining with it, when no part holds it |
| Text.Words | src/services/summary_service.py:56 | every word of `split()` is non-empty and holds no whitespace |
| Text.RemoveAll | src/api/openai_api.py:96 | `replace(pat, '')` never lengthens the text |
| Text.RemoveAllAbsent | src/api/openai_api.py:96 | replacing a pattern that does not occur changes nothing |
| ResponseParser.IsBullet | src/api/openai_api.py:104 | a line kept as a bullet contains `-` |
| ResponseParser.IsBulletMeans | src/api/openai_api.py:104 | a line is kept iff its first character that is not whitespace is `-`; trailing whitespace does not matter |
| ResponseParser.CleanPoint | src/api/openai_api.py:102 | a cleaned point is stripped and no longer than its line |
| ResponseParser.BulletPoints | src/api/openai_api.py:101-105 | there are no more key points than lines |
| ResponseParser.BulletPointsSelect | src/api/openai_api.py:101-105 | the key points are exactly the lines whose stripped form starts with `-`, in order, each cleaned, and each one is stripped |
| ResponseParser.KeyPointsOf | src/api/openai_api.py:99-105 | the key points of a section are stripped and no more than its lines |
| ResponseParser.ParseContent | src/api/openai_api.py:95-110 | the summary and every key point are stripped |
| ResponseParser.ParseResponse | src/api/openai_api.py:92-110 | the reply is stripped and then parsed |
| ResponseParser.ParseWithoutMarker | src/api/openai_api.py:95-99 | without the key-points marker there are no key points, and the summary is the content with every `[요약]` removed, stripped |
| ResponseParser.FirstSection | src/api/openai_api.py:100 | the text up to the next marker is a prefix holding no marker |
| ResponseParser.ParseWithMarker | src/api/openai_api.py:95-105 | with the first marker at i: the summary comes from the text before i, and the key points only from the text between the first and second markers |
| ResponseParser.BulletsRoundTrip | src/api/openai_api.py:100-105 | a list of well-formed points written as `- point` lines reads back as the same points |

## Left out

- The Streamlit UI, the HTTP client for the news API, the article crawler,
  the AI summary orchestration and the configuration reader are not part of
  this model. They hold presentation, network access and environment reads.
- The chat-completion calls and the exception paths that return `None` in
  `src/api/openai_api.py` are foreign calls. Only the parsing of the reply
  (lines 92-110) is modelled.
- `difflib.SequenceMatcher` is a library algorithm. Its ratio is the
  parameter `ratio`, known only to lie in [0, 1]. No symmetry or identity
  property is assumed.
- Deduplicator.CalculateSimilarity: nothing beyond the [0, 1] range is
  stated about the score, because the library's heuristics are not modelled.
- `parse_pub_date` (RFC 2822 date parsing with a fall-back to the current
  time) is the parameter `stamp`. The model follows the code here: an
  unparseable date yields the current time, so such items sort to the front
  of the newest-first order, not the back. The clock is fixed for one run.
  Python reads it again for each failed parse, and that is not modelled.
- Text.Lower: lower-cases the ASCII letters only. Python's Unicode case
  mapping of other letters is not modelled. Similarity is still invariant
  under any case change that `Lower` itself performs.
- Floating-point rounding: the threshold and the scores are reals that are
  only compared.
- All `print` logging, and `get_news_summary`, which only wraps
  `search_and_format` in a dict, are not modelled.
- Items are immutable `map` values. `item.copy()` in `create_summary_list`
  therefore needs no modelling: an update can never reach the input. Aliasing
  between the caller's dicts and the results is not modelled.
- `search_news` raises an exception when the HTTP request fails
  (src/api/naver_news_api.py:56-57), and `search_and_format` lets it
  propagate. The search is modelled as a total function on requests, so this
  error path is not modelled.
- NewsService.SearchAndFormat: the search API is a pure function of the
  request. The same request gives the same page, and the API's own limits on
  `display` and `start` are not modelled.
