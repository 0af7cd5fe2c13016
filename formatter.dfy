/** Field sanitising (src/utils/formatter.py): `remove_html_tags` is
    `re.sub('<.*?>', '', text)`, the lazy pattern whose `.` does not match a
    newline; `format_news_item` rebuilds a raw item with five fields. */
module Formatter {
  import opened Seqs
  import opened Records

  /** After the start of `s`, no `>` comes before a newline: a `<` just in
      front of `s` opens no tag. */
  ghost predicate LineOpen(s: string) {
    forall k :: 0 <= k < |s| && s[k] == '>' ==> exists m :: 0 <= m < k && s[m] == '\n'
  }

  /** No `<` of `t` is followed by a `>` on the same line: `t` holds nothing
      that `<.*?>` could match. */
  ghost predicate TagFree(t: string) {
    forall i :: 0 <= i < |t| && t[i] == '<' ==> LineOpen(t[i + 1..])
  }

  /** Where the lazy `.*?>` ends: the first `>` of `s`, if no newline comes
      before it. */
  function CloseAt(s: string): (r: Option<nat>)
    ensures r.Some? ==> r.value < |s| && s[r.value] == '>'
                        && forall k :: 0 <= k < r.value ==> s[k] != '\n' && s[k] != '>'
    ensures r.None? <==> LineOpen(s)
  {
    if s == [] then None
    else if s[0] == '>' then Some(0)
    else if s[0] == '\n' then None
    else match CloseAt(s[1..])
      case Some(j) => Some(j + 1)
      case None =>
        assert LineOpen(s) by {
          forall k | 0 <= k < |s| && s[k] == '>' ensures exists m :: 0 <= m < k && s[m] == '\n' {
            assert s[1..][k - 1] == '>';
            var m :| 0 <= m < k - 1 && s[1..][m] == '\n';
            assert s[m + 1] == '\n';
          }
        }
        None
  }

  /** `re.sub('<.*?>', '', text)`: scanning from the left, each `<` that has
      a `>` later on its line is deleted together with everything up to the
      first such `>`; every other character is kept. */
  function RemoveHtmlTags(s: string): (r: string)
    ensures |r| <= |s|
    decreases |s|
  {
    if s == [] then []
    else if s[0] == '<' then
      match CloseAt(s[1..])
      case Some(j) => RemoveHtmlTags(s[j + 2..])
      case None => [s[0]] + RemoveHtmlTags(s[1..])
    else [s[0]] + RemoveHtmlTags(s[1..])
  }

  function Falses(n: nat): (m: seq<bool>)
    ensures |m| == n && forall i :: 0 <= i < n ==> !m[i]
  {
    if n == 0 then [] else [false] + Falses(n - 1)
  }

  /** Deleting the first `n` characters is selecting none of them. */
  lemma SelectAfterDropped(s: string, n: nat, rest: seq<bool>)
    requires n <= |s| && |rest| == |s| - n
    ensures Select(s, Falses(n) + rest) == Select(s[n..], rest)
  {
    assert s == s[..n] + s[n..];
    SelectAppend(s[..n], Falses(n), s[n..], rest);
    SelectNone(s[..n], Falses(n));
  }

  /** Which characters of `s` survive the substitution. */
  function KeptChars(s: string): (mask: seq<bool>)
    ensures |mask| == |s| && Select(s, mask) == RemoveHtmlTags(s)
    decreases |s|
  {
    if s == [] then []
    else if s[0] == '<' && CloseAt(s[1..]).Some? then
      var j := CloseAt(s[1..]).value;
      var rest := KeptChars(s[j + 2..]);
      SelectAfterDropped(s, j + 2, rest);
      Falses(j + 2) + rest
    else [true] + KeptChars(s[1..])
  }

  /** The result is a subsequence of the input: characters are only deleted. */
  lemma RemoveHtmlTagsSubsequence(s: string)
    ensures IsSubsequence(RemoveHtmlTags(s), s)
  {
    var mask := KeptChars(s);
    assert |mask| == |s| && Select(s, mask) == RemoveHtmlTags(s);
  }

  /** A tag: `<`, then no `>` and no newline, then `>` — the shortest match —
      is deleted, and scanning resumes after it. */
  lemma RemovesShortestTag(t: string, c: string)
    requires forall k :: 0 <= k < |t| ==> t[k] != '>' && t[k] != '\n'
    ensures RemoveHtmlTags("<" + t + ">" + c) == RemoveHtmlTags(c)
  {
    var s := "<" + t + ">" + c;
    var u := s[1..];
    assert u == t + ">" + c;
    assert u[|t|] == '>';
    assert forall k :: 0 <= k < |t| ==> u[k] == t[k];
    var j := CloseAt(u).value;
    assert j == |t|;
    assert s[j + 2..] == c;
  }

  /** A `<` with no `>` later on its line is kept. */
  lemma KeepsUnclosedBracket(t: string)
    requires LineOpen(t)
    ensures RemoveHtmlTags("<" + t) == "<" + RemoveHtmlTags(t)
  {
    assert ("<" + t)[1..] == t;
  }

  lemma {:induction false} LineOpenPreserved(u: string)
    requires LineOpen(u)
    ensures LineOpen(RemoveHtmlTags(u))
    decreases |u|
  {
    if u == [] {
      return;
    }
    if u[0] == '\n' {
      var r := RemoveHtmlTags(u);
      assert r == [u[0]] + RemoveHtmlTags(u[1..]);
      assert r[0] == '\n';
      return;
    }
    assert u[0] != '>';
    assert LineOpen(u[1..]) by {
      forall k | 0 <= k < |u[1..]| && u[1..][k] == '>'
        ensures exists m :: 0 <= m < k && u[1..][m] == '\n'
      {
        assert u[k + 1] == '>';
        var m :| 0 <= m < k + 1 && u[m] == '\n';
        assert u[1..][m - 1] == '\n';
      }
    }
    LineOpenPreserved(u[1..]);
    var t := RemoveHtmlTags(u[1..]);
    assert RemoveHtmlTags(u) == [u[0]] + t;
    forall k | 0 <= k < |[u[0]] + t| && ([u[0]] + t)[k] == '>'
      ensures exists m :: 0 <= m < k && ([u[0]] + t)[m] == '\n'
    {
      assert t[k - 1] == '>';
      var m :| 0 <= m < k - 1 && t[m] == '\n';
      assert ([u[0]] + t)[m + 1] == '\n';
    }
  }

  /** Prepending a character keeps a tag-free string tag-free, when that
      character is not `<` or opens no tag. */
  lemma ConsTagFree(c: char, t: string)
    requires TagFree(t)
    requires c == '<' ==> LineOpen(t)
    ensures TagFree([c] + t)
  {
    var s := [c] + t;
    forall i | 0 <= i < |s| && s[i] == '<' ensures LineOpen(s[i + 1..]) {
      if i == 0 {
        assert s[1..] == t;
      } else {
        assert s[i + 1..] == t[i..];
      }
    }
  }

  /** The output holds no `<` followed by a `>` on the same line. */
  lemma {:induction false} RemoveHtmlTagsTagFree(s: string)
    ensures TagFree(RemoveHtmlTags(s))
    decreases |s|
  {
    if s == [] {
    } else if s[0] == '<' {
      match CloseAt(s[1..])
      case Some(j) =>
        RemoveHtmlTagsTagFree(s[j + 2..]);
      case None =>
        RemoveHtmlTagsTagFree(s[1..]);
        LineOpenPreserved(s[1..]);
        ConsTagFree('<', RemoveHtmlTags(s[1..]));
    } else {
      RemoveHtmlTagsTagFree(s[1..]);
      ConsTagFree(s[0], RemoveHtmlTags(s[1..]));
    }
  }

  /** Tag-free text is returned unchanged. */
  lemma {:induction false} RemoveHtmlTagsFixed(t: string)
    requires TagFree(t)
    ensures RemoveHtmlTags(t) == t
    decreases |t|
  {
    if t != [] {
      assert TagFree(t[1..]) by {
        forall i | 0 <= i < |t[1..]| && t[1..][i] == '<' ensures LineOpen(t[1..][i + 1..]) {
          assert t[1..][i + 1..] == t[i + 2..];
        }
      }
      RemoveHtmlTagsFixed(t[1..]);
    }
  }

  /** Text containing no `<` is returned unchanged. */
  lemma {:induction false} RemoveHtmlTagsNoBracket(t: string)
    requires forall k :: 0 <= k < |t| ==> t[k] != '<'
    ensures RemoveHtmlTags(t) == t
  {
    RemoveHtmlTagsFixed(t);
  }

  /** Stripping tags twice is stripping them once. */
  lemma RemoveHtmlTagsIdempotent(s: string)
    ensures RemoveHtmlTags(RemoveHtmlTags(s)) == RemoveHtmlTags(s)
  {
    RemoveHtmlTagsTagFree(s);
    RemoveHtmlTagsFixed(RemoveHtmlTags(s));
  }

  // ---------------------------------------------------------------------
  // format_news_item, format_news_list

  const FormattedKeys: set<string> := {"title", "description", "link", "originallink", "pubDate"}

  /** Exactly five fields; title and description are stripped of tags, the
      link, original link and date are copied, and a missing field becomes
      the empty string. */
  function FormatNewsItem(item: Record): (r: Record)
    ensures r.Keys == FormattedKeys
    ensures r["title"] == RemoveHtmlTags(Get(item, "title"))
    ensures r["description"] == RemoveHtmlTags(Get(item, "description"))
    ensures r["link"] == Get(item, "link")
    ensures r["originallink"] == Get(item, "originallink")
    ensures r["pubDate"] == Get(item, "pubDate")
  {
    map["title" := RemoveHtmlTags(Get(item, "title")),
        "description" := RemoveHtmlTags(Get(item, "description")),
        "link" := Get(item, "link"),
        "originallink" := Get(item, "originallink"),
        "pubDate" := Get(item, "pubDate")]
  }

  /** A formatted item's title and description hold no tag, and formatting
      it again changes neither. */
  lemma FormatNewsItemTagFree(item: Record)
    ensures TagFree(FormatNewsItem(item)["title"]) && TagFree(FormatNewsItem(item)["description"])
    ensures FormatNewsItem(FormatNewsItem(item)) == FormatNewsItem(item)
  {
    var r := FormatNewsItem(item);
    RemoveHtmlTagsTagFree(Get(item, "title"));
    RemoveHtmlTagsTagFree(Get(item, "description"));
    RemoveHtmlTagsFixed(r["title"]);
    RemoveHtmlTagsFixed(r["description"]);
    assert FormatNewsItem(r).Keys == r.Keys;
  }

  /** The list comprehension: same length, same order, each item formatted. */
  function FormatNewsList(items: seq<Record>): (r: seq<Record>)
    ensures |r| == |items|
    ensures forall i :: 0 <= i < |items| ==> r[i] == FormatNewsItem(items[i])
  {
    seq(|items|, i requires 0 <= i < |items| => FormatNewsItem(items[i]))
  }

  /** Formatting distributes over concatenation, so formatting pages one by
      one and joining them is formatting the joined pages. */
  lemma FormatNewsListAppend(a: seq<Record>, b: seq<Record>)
    ensures FormatNewsList(a + b) == FormatNewsList(a) + FormatNewsList(b)
  {
  }
}
