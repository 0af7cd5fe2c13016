/** The Python string operations the pipeline relies on, on `string`
    (a sequence of Unicode scalar values, like a Python `str`). */
module Text {
  import opened Seqs

  /** Python's `str.isspace()` for one character: the characters that
      `split()` and `strip()` with no argument treat as whitespace. */
  predicate IsSpace(c: char) {
    c == ' ' || ('\t' <= c <= '\r') || ('\U{1C}' <= c <= '\U{1F}')
    || c == '\U{85}' || c == '\U{A0}' || c == '\U{1680}'
    || ('\U{2000}' <= c <= '\U{200A}') || c == '\U{2028}' || c == '\U{2029}'
    || c == '\U{202F}' || c == '\U{205F}' || c == '\U{3000}'
  }

  /** The argument `'- '` of `line.strip('- ')`. */
  predicate IsDashOrBlank(c: char) {
    c == '-' || c == ' '
  }

  predicate StartsWith(s: string, p: string) {
    |p| <= |s| && s[..|p|] == p
  }

  /** `pat` occurs in `s` at position `i`. */
  predicate OccursAt(s: string, pat: string, i: nat) {
    i + |pat| <= |s| && s[i..i + |pat|] == pat
  }

  ghost predicate Contains(s: string, pat: string) {
    exists i: nat :: OccursAt(s, pat, i)
  }

  // ---------------------------------------------------------------------
  // lower()

  function LowerChar(c: char): char {
    if 'A' <= c <= 'Z' then (c as int + 32) as char else c
  }

  /** `str.lower()`, for the ASCII letters. */
  function Lower(s: string): (r: string)
    ensures |r| == |s|
  {
    seq(|s|, i requires 0 <= i < |s| => LowerChar(s[i]))
  }

  /** No ASCII capital is left, and every other character stays in place. */
  lemma LowerMeans(s: string)
    ensures forall i :: 0 <= i < |s| ==> !('A' <= Lower(s)[i] <= 'Z')
    ensures forall i :: 0 <= i < |s| && !('A' <= s[i] <= 'Z') ==> Lower(s)[i] == s[i]
  {
  }

  /** Lower-casing twice is lower-casing once. */
  lemma LowerIdempotent(s: string)
    ensures Lower(Lower(s)) == Lower(s)
  {
    forall i | 0 <= i < |s| ensures Lower(Lower(s))[i] == Lower(s)[i] {
      assert Lower(s)[i] == LowerChar(s[i]);
    }
  }

  // ---------------------------------------------------------------------
  // strip() and strip(chars)

  /** `lstrip`: drops the leading characters that satisfy `drop`. */
  function TrimStart(s: string, drop: char -> bool): (r: string)
    ensures |r| <= |s|
    ensures forall k :: 0 <= k < |s| - |r| ==> drop(s[k])
    ensures r == [] || !drop(r[0])
  {
    if s != [] && drop(s[0]) then TrimStart(s[1..], drop) else s
  }

  /** `rstrip`: drops the trailing characters that satisfy `drop`. */
  function TrimEnd(s: string, drop: char -> bool): (r: string)
    ensures |r| <= |s|
    ensures forall k :: |r| <= k < |s| ==> drop(s[k])
    ensures r == [] || !drop(r[|r| - 1])
  {
    if s != [] && drop(s[|s| - 1]) then TrimEnd(s[..|s| - 1], drop) else s
  }

  /** `strip(chars)`: a contiguous piece of `s` that neither starts nor ends
      with a dropped character, where everything cut away is dropped. */
  function Trim(s: string, drop: char -> bool): (r: string)
    ensures |r| <= |s|
    ensures r == [] || (!drop(r[0]) && !drop(r[|r| - 1]))
  {
    TrimEndPrefix(TrimStart(s, drop), drop);
    TrimEnd(TrimStart(s, drop), drop)
  }

  /** What `strip(chars)` cuts away is dropped characters only, from both
      ends: the result is the piece of `s` between them. */
  lemma TrimIsSlice(s: string, drop: char -> bool) returns (i: nat, j: nat)
    ensures i <= j <= |s| && Trim(s, drop) == s[i..j]
    ensures forall k :: 0 <= k < i ==> drop(s[k])
    ensures forall k :: j <= k < |s| ==> drop(s[k])
  {
    var a := TrimStart(s, drop);
    var r := TrimEnd(a, drop);
    TrimStartSuffix(s, drop);
    TrimEndPrefix(a, drop);
    i := |s| - |a|;
    j := i + |r|;
    assert r == s[i..j];
    forall k | j <= k < |s| ensures drop(s[k]) {
      assert s[k] == a[k - i];
    }
    assert Trim(s, drop) == s[i..j];
  }

  lemma {:induction false} TrimStartSuffix(s: string, drop: char -> bool)
    ensures TrimStart(s, drop) == s[|s| - |TrimStart(s, drop)|..]
  {
    if s != [] && drop(s[0]) {
      TrimStartSuffix(s[1..], drop);
    }
  }

  lemma {:induction false} TrimEndPrefix(s: string, drop: char -> bool)
    ensures TrimEnd(s, drop) == s[..|TrimEnd(s, drop)|]
  {
    if s != [] && drop(s[|s| - 1]) {
      TrimEndPrefix(s[..|s| - 1], drop);
    }
  }

  /** `strip()` with no argument. */
  function Strip(s: string): (r: string)
    ensures |r| <= |s|
    ensures r == [] || (!IsSpace(r[0]) && !IsSpace(r[|r| - 1]))
  {
    Trim(s, IsSpace)
  }

  /** A string that `strip()` leaves as it is. */
  predicate IsStripped(s: string) {
    s == [] || (!IsSpace(s[0]) && !IsSpace(s[|s| - 1]))
  }

  /** Neither end of `s` is dropped: `strip` leaves it as it is. */
  lemma TrimUnchanged(s: string, drop: char -> bool)
    requires s == [] || (!drop(s[0]) && !drop(s[|s| - 1]))
    ensures Trim(s, drop) == s
  {
  }

  /** Stripping a run of dropped characters in front of `p` gives `p`, when
      neither end of `p` is dropped. */
  lemma {:induction false} TrimAfterDropped(pre: string, p: string, drop: char -> bool)
    requires forall k :: 0 <= k < |pre| ==> drop(pre[k])
    requires p != [] && !drop(p[0]) && !drop(p[|p| - 1])
    ensures Trim(pre + p, drop) == p
  {
    TrimStartAfterDropped(pre, p, drop);
    TrimUnchanged(p, drop);
  }

  lemma {:induction false} TrimStartAfterDropped(pre: string, p: string, drop: char -> bool)
    requires forall k :: 0 <= k < |pre| ==> drop(pre[k])
    requires p != [] && !drop(p[0])
    ensures TrimStart(pre + p, drop) == p
  {
    if pre == [] {
      assert pre + p == p;
    } else {
      assert (pre + p)[0] == pre[0];
      assert (pre + p)[1..] == pre[1..] + p;
      TrimStartAfterDropped(pre[1..], p, drop);
    }
  }

  // ---------------------------------------------------------------------
  // split() with no argument

  /** Length of the run of non-whitespace characters at the front of `s`. */
  function TokenLength(s: string): (n: nat)
    requires s != [] && !IsSpace(s[0])
    ensures 1 <= n <= |s|
    ensures forall k :: 0 <= k < n ==> !IsSpace(s[k])
    ensures n < |s| ==> IsSpace(s[n])
  {
    if |s| == 1 || IsSpace(s[1]) then 1 else 1 + TokenLength(s[1..])
  }

  /** `str.split()`: the maximal runs of non-whitespace characters. */
  function Words(s: string): (r: seq<string>)
    ensures forall w :: w in r ==> w != [] && forall k :: 0 <= k < |w| ==> !IsSpace(w[k])
    decreases |s|
  {
    if s == [] then []
    else if IsSpace(s[0]) then Words(s[1..])
    else
      var n := TokenLength(s);
      [s[..n]] + Words(s[n..])
  }

  // ---------------------------------------------------------------------
  // split(sep) and its inverse, sep.join

  /** `sep.join(parts)`. */
  function Join(parts: seq<string>, sep: string): string {
    if parts == [] then []
    else if |parts| == 1 then parts[0]
    else parts[0] + sep + Join(parts[1..], sep)
  }

  /** Position of the first occurrence of `pat` in `s`, if any. */
  function Find(s: string, pat: string): (r: Option<nat>)
    requires pat != []
    ensures r.Some? ==> OccursAt(s, pat, r.value)
                        && forall k :: 0 <= k < r.value ==> !OccursAt(s, pat, k)
    ensures r.None? ==> forall k :: 0 <= k ==> !OccursAt(s, pat, k)
    decreases |s|
  {
    if |s| < |pat| then None
    else if s[..|pat|] == pat then Some(0)
    else match Find(s[1..], pat)
      case None =>
        OccursAtShift(s, pat);
        None
      case Some(i) =>
        OccursAtShift(s, pat);
        Some(i + 1)
  }

  /** An occurrence at `k >= 1` in `s` is one at `k - 1` in its tail. */
  lemma OccursAtShift(s: string, pat: string)
    requires s != []
    ensures forall k: nat :: 1 <= k ==> (OccursAt(s, pat, k) <==> OccursAt(s[1..], pat, k - 1))
  {
    forall k: nat | 1 <= k ensures OccursAt(s, pat, k) <==> OccursAt(s[1..], pat, k - 1) {
      if k + |pat| <= |s| {
        assert s[1..][k - 1..k - 1 + |pat|] == s[k..k + |pat|];
      }
    }
  }

  /** An occurrence in a prefix is an occurrence in the whole text. */
  lemma OccursInPrefix(s: string, pat: string, i: nat)
    requires i <= |s|
    ensures forall k: nat :: OccursAt(s[..i], pat, k) ==> OccursAt(s, pat, k)
  {
    forall k: nat | OccursAt(s[..i], pat, k) ensures OccursAt(s, pat, k) {
      assert s[..i][k..k + |pat|] == s[k..k + |pat|];
    }
  }

  /** `s.split(pat)` for a non-empty separator: the pieces between the
      occurrences of `pat`, scanned from the left. */
  function SplitOn(s: string, pat: string): (r: seq<string>)
    requires pat != []
    ensures |r| >= 1
    ensures forall k :: 0 <= k < |r| ==> !Contains(r[k], pat)
    ensures Join(r, pat) == s
    decreases |s|
  {
    match Find(s, pat)
    case None => [s]
    case Some(i) =>
      var rest := SplitOn(s[i + |pat|..], pat);
      OccursInPrefix(s, pat, i);
      assert !Contains(s[..i], pat);
      assert s == s[..i] + pat + s[i + |pat|..];
      [s[..i]] + rest
  }

  /** The split is leftmost even for a separator that overlaps itself:
      without an occurrence the text is its only part, and otherwise the
      first part ends at the first occurrence. */
  lemma SplitOnLeftmost(s: string, pat: string)
    requires pat != []
    ensures Find(s, pat).None? ==> SplitOn(s, pat) == [s]
    ensures Find(s, pat).Some? ==> SplitOn(s, pat)[0] == s[..Find(s, pat).value]
  {
  }

  /** The joined string ends with the last part. */
  lemma {:induction false} JoinEndsWithLast(parts: seq<string>, sep: string)
    requires parts != []
    ensures var s := Join(parts, sep); var last := parts[|parts| - 1];
            |last| <= |s| && s[|s| - |last|..] == last
  {
    if |parts| > 1 {
      JoinEndsWithLast(parts[1..], sep);
      var rest := Join(parts[1..], sep);
      var s := Join(parts, sep);
      assert s == (parts[0] + sep) + rest;
      assert s[|s| - |rest|..] == rest;
    }
  }

  /** Splitting on a one-character separator undoes joining with it, when no
      part holds that character. */
  lemma {:induction false} SplitOnJoin(parts: seq<string>, c: char)
    requires parts != []
    requires forall k :: 0 <= k < |parts| ==> c !in parts[k]
    ensures SplitOn(Join(parts, [c]), [c]) == parts
  {
    if |parts| == 1 {
      SplitOnNoSeparator(parts[0], c);
    } else {
      var rest := Join(parts[1..], [c]);
      assert Join(parts, [c]) == parts[0] + [c] + rest;
      SplitOnFirst(parts[0], c, rest);
      SplitOnJoin(parts[1..], c);
      assert parts == [parts[0]] + parts[1..];
    }
  }

  /** A text without the separator character is its own single part. */
  lemma SplitOnNoSeparator(p: string, c: char)
    requires c !in p
    ensures SplitOn(p, [c]) == [p]
  {
    forall k: nat | k + 1 <= |p| ensures !OccursAt(p, [c], k) {
      assert p[k..k + 1] == [p[k]];
    }
    assert Find(p, [c]).None?;
  }

  /** The first part ends at the first separator character. */
  lemma SplitOnFirst(p0: string, c: char, rest: string)
    requires c !in p0
    ensures SplitOn(p0 + [c] + rest, [c]) == [p0] + SplitOn(rest, [c])
  {
    var s := p0 + [c] + rest;
    assert OccursAt(s, [c], |p0|) by {
      assert s[|p0|..|p0| + 1] == [c];
    }
    forall k | 0 <= k < |p0| ensures !OccursAt(s, [c], k) {
      assert s[k] == p0[k];
      assert s[k..k + 1] == [s[k]];
    }
    var i := Find(s, [c]).value;
    assert i == |p0|;
    assert s[..i] == p0;
    assert s[i + 1..] == rest;
  }

  // ---------------------------------------------------------------------
  // replace(pat, '')

  /** `s.replace(pat, '')`: deletes the occurrences of `pat` found by a left
      to right scan that resumes after each deleted occurrence. */
  function RemoveAll(s: string, pat: string): (r: string)
    requires pat != []
    ensures |r| <= |s|
    decreases |s|
  {
    if s == [] then []
    else if StartsWith(s, pat) then RemoveAll(s[|pat|..], pat)
    else [s[0]] + RemoveAll(s[1..], pat)
  }

  /** Replacing a pattern that does not occur changes nothing. */
  lemma {:induction false} RemoveAllAbsent(s: string, pat: string)
    requires pat != [] && !Contains(s, pat)
    ensures RemoveAll(s, pat) == s
    decreases |s|
  {
    if s != [] {
      assert !OccursAt(s, pat, 0);
      OccursAtShift(s, pat);
      assert forall k: nat :: OccursAt(s[1..], pat, k) ==> OccursAt(s, pat, k + 1);
      RemoveAllAbsent(s[1..], pat);
    }
  }
}
