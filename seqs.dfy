/** Sequence vocabulary shared by the pipeline: optional values, selection by a
    boolean mask (the meaning of "subsequence"), Python's prefix slice and a
    model of Python's built-in `sorted(..., key=k, reverse=True)`, which is a
    stable sort in descending key order. */
module Seqs {

  datatype Option<T> = None | Some(value: T)

  /** The elements of `s` whose mask bit is set, in order. */
  function Select<T>(s: seq<T>, mask: seq<bool>): (r: seq<T>)
    requires |mask| == |s|
    ensures |r| <= |s|
  {
    if s == [] then [] else (if mask[0] then [s[0]] else []) + Select(s[1..], mask[1..])
  }

  /** A selection takes each element at most as often as it occurs. */
  lemma {:induction false} SelectMultiset<T>(s: seq<T>, mask: seq<bool>)
    requires |mask| == |s|
    ensures multiset(Select(s, mask)) <= multiset(s)
  {
    if s != [] {
      assert s == [s[0]] + s[1..];
      SelectMultiset(s[1..], mask[1..]);
    }
  }

  /** `a` is a subsequence of `b`: some choice of positions of `b` yields `a`. */
  ghost predicate IsSubsequence<T>(a: seq<T>, b: seq<T>) {
    exists mask: seq<bool> :: |mask| == |b| && Select(b, mask) == a
  }

  lemma {:induction false} SelectAppend<T>(a: seq<T>, ma: seq<bool>, b: seq<T>, mb: seq<bool>)
    requires |ma| == |a| && |mb| == |b|
    ensures Select(a + b, ma + mb) == Select(a, ma) + Select(b, mb)
  {
    if a != [] {
      assert (a + b)[1..] == a[1..] + b;
      assert (ma + mb)[1..] == ma[1..] + mb;
      SelectAppend(a[1..], ma[1..], b, mb);
    } else {
      assert a + b == b && ma + mb == mb;
    }
  }

  /** Selecting with one more decision appends the last item or nothing. */
  lemma SelectSnoc<T>(s: seq<T>, mask: seq<bool>, x: T, b: bool)
    requires |mask| == |s|
    ensures Select(s + [x], mask + [b]) == Select(s, mask) + (if b then [x] else [])
  {
    SelectAppend(s, mask, [x], [b]);
  }

  lemma {:induction false} SelectNone<T>(s: seq<T>, mask: seq<bool>)
    requires |mask| == |s|
    requires forall i :: 0 <= i < |mask| ==> !mask[i]
    ensures Select(s, mask) == []
  {
    if s != [] {
      SelectNone(s[1..], mask[1..]);
    }
  }

  /** Every element of a selection sits at some position of the source whose
      bit is set. */
  lemma {:induction false} SelectIn<T>(s: seq<T>, mask: seq<bool>, k: nat)
    requires |mask| == |s| && k < |Select(s, mask)|
    ensures exists i :: 0 <= i < |s| && mask[i] && s[i] == Select(s, mask)[k]
  {
    if mask[0] {
      if k > 0 {
        SelectIn(s[1..], mask[1..], k - 1);
        var i :| 0 <= i < |s[1..]| && mask[1..][i] && s[1..][i] == Select(s[1..], mask[1..])[k - 1];
        assert mask[i + 1] && s[i + 1] == Select(s, mask)[k];
      }
    } else {
      SelectIn(s[1..], mask[1..], k);
      var i :| 0 <= i < |s[1..]| && mask[1..][i] && s[1..][i] == Select(s[1..], mask[1..])[k];
      assert mask[i + 1] && s[i + 1] == Select(s, mask)[k];
    }
  }

  /** The list comprehension `[f(x) for x in s if keep(x)]`. */
  function FilterMap<T, U>(s: seq<T>, keep: T -> bool, f: T -> U): (r: seq<U>)
    ensures |r| <= |s|
  {
    if s == [] then []
    else (if keep(s[0]) then [f(s[0])] else []) + FilterMap(s[1..], keep, f)
  }

  /** `[f(x) for x in s]`. */
  function MapSeq<T, U>(f: T -> U, s: seq<T>): (r: seq<U>)
    ensures |r| == |s| && forall i :: 0 <= i < |s| ==> r[i] == f(s[i])
  {
    seq(|s|, i requires 0 <= i < |s| => f(s[i]))
  }

  /** Which elements pass the filter. */
  function MaskOf<T>(s: seq<T>, keep: T -> bool): (m: seq<bool>)
    ensures |m| == |s| && forall i :: 0 <= i < |s| ==> (m[i] <==> keep(s[i]))
  {
    seq(|s|, i requires 0 <= i < |s| => keep(s[i]))
  }

  /** The comprehension maps `f` over exactly the elements that pass the
      filter, in their order. */
  lemma {:induction false} FilterMapSelect<T, U>(s: seq<T>, keep: T -> bool, f: T -> U)
    ensures FilterMap(s, keep, f) == MapSeq(f, Select(s, MaskOf(s, keep)))
  {
    if s != [] {
      var head := if keep(s[0]) then [s[0]] else [];
      var rest := Select(s[1..], MaskOf(s[1..], keep));
      FilterMapSelect(s[1..], keep, f);
      assert Select(s, MaskOf(s, keep)) == head + rest by {
        assert MaskOf(s, keep)[1..] == MaskOf(s[1..], keep);
      }
      MapSeqAppend(f, head, rest);
    }
  }

  lemma MapSeqAppend<T, U>(f: T -> U, a: seq<T>, b: seq<T>)
    ensures MapSeq(f, a + b) == MapSeq(f, a) + MapSeq(f, b)
  {
  }

  /** When every element passes the filter, the comprehension is a map. */
  lemma {:induction false} FilterMapAll<T, U>(s: seq<T>, keep: T -> bool, f: T -> U)
    requires forall i :: 0 <= i < |s| ==> keep(s[i])
    ensures FilterMap(s, keep, f) == MapSeq(f, s)
  {
    if s != [] {
      FilterMapAll(s[1..], keep, f);
      assert MapSeq(f, s) == [f(s[0])] + MapSeq(f, s[1..]);
    }
  }

  /** Python's `s[:n]`: a negative bound counts from the end. */
  function SliceTo<T>(s: seq<T>, n: int): (r: seq<T>)
    ensures n >= 0 ==> |r| == if n <= |s| then n else |s|
    ensures n < 0 ==> |r| == if -n <= |s| then |s| + n else 0
    ensures r == s[..|r|]
  {
    if n >= 0 then (if n <= |s| then s[..n] else s)
    else (if -n <= |s| then s[..|s| + n] else [])
  }

  // ---------------------------------------------------------------------
  // Python's sorted(s, key=key, reverse=True)

  /** `s` is in non-increasing key order. */
  ghost predicate SortedDesc<T>(s: seq<T>, key: T -> int) {
    forall i, j :: 0 <= i < j < |s| ==> key(s[i]) >= key(s[j])
  }

  /** The elements of `s` whose key is `k`, in their order in `s`. */
  function WithKey<T>(s: seq<T>, key: T -> int, k: int): seq<T> {
    if s == [] then []
    else (if key(s[0]) == k then [s[0]] else []) + WithKey(s[1..], key, k)
  }

  /** Inserts `x` in front of the first element whose key is not larger. */
  function Insert<T>(x: T, t: seq<T>, key: T -> int): (r: seq<T>)
    ensures |r| == |t| + 1
  {
    if t == [] then [x]
    else if key(t[0]) > key(x) then [t[0]] + Insert(x, t[1..], key) else [x] + t
  }

  /** Inserting adds `x` and keeps everything else. */
  lemma {:induction false} InsertPermutes<T>(x: T, t: seq<T>, key: T -> int)
    ensures multiset(Insert(x, t, key)) == multiset{x} + multiset(t)
  {
    if t != [] {
      assert t == [t[0]] + t[1..];
      if key(t[0]) > key(x) {
        InsertPermutes(x, t[1..], key);
      }
    }
  }

  /** Stable sort, largest key first (insertion sort from the back). */
  function SortDesc<T>(s: seq<T>, key: T -> int): (r: seq<T>)
    ensures |r| == |s|
  {
    if s == [] then [] else Insert(s[0], SortDesc(s[1..], key), key)
  }

  /** The sort is a permutation of its input. */
  lemma {:induction false} SortDescPermutes<T>(s: seq<T>, key: T -> int)
    ensures multiset(SortDesc(s, key)) == multiset(s)
  {
    if s != [] {
      assert s == [s[0]] + s[1..];
      SortDescPermutes(s[1..], key);
      InsertPermutes(s[0], SortDesc(s[1..], key), key);
    }
  }

  /** Inserting into a key-sorted sequence keeps it sorted; the new head is
      `x` or the old head. */
  lemma {:induction false} InsertSorted<T>(x: T, t: seq<T>, key: T -> int)
    requires SortedDesc(t, key)
    ensures SortedDesc(Insert(x, t, key), key)
    ensures Insert(x, t, key)[0] == x || (t != [] && Insert(x, t, key)[0] == t[0])
  {
    if t != [] && key(t[0]) > key(x) {
      var rest := t[1..];
      assert SortedDesc(rest, key) by {
        forall i, j | 0 <= i < j < |rest| ensures key(rest[i]) >= key(rest[j]) {
          assert rest[i] == t[i + 1] && rest[j] == t[j + 1];
        }
      }
      InsertSorted(x, rest, key);
      var r := Insert(x, rest, key);
      assert key(t[0]) >= key(r[0]) by {
        if r[0] != x {
          assert r[0] == t[1];
        }
      }
      ConsSorted(t[0], r, key);
    }
  }

  /** A head with a key no smaller than a sorted tail's head keeps it sorted. */
  lemma ConsSorted<T>(y: T, r: seq<T>, key: T -> int)
    requires SortedDesc(r, key) && r != [] && key(y) >= key(r[0])
    ensures SortedDesc([y] + r, key)
  {
    var s := [y] + r;
    forall i, j | 0 <= i < j < |s| ensures key(s[i]) >= key(s[j]) {
      assert s[j] == r[j - 1];
      if i == 0 {
        if j > 1 {
          assert key(r[0]) >= key(r[j - 1]);
        }
      } else {
        assert s[i] == r[i - 1];
      }
    }
  }

  lemma WithKeyCons<T>(y: T, r: seq<T>, key: T -> int, k: int)
    ensures WithKey([y] + r, key, k) == (if key(y) == k then [y] else []) + WithKey(r, key, k)
  {
    assert ([y] + r)[1..] == r;
  }

  lemma {:induction false} InsertWithKey<T>(x: T, t: seq<T>, key: T -> int, k: int)
    ensures WithKey(Insert(x, t, key), key, k)
         == (if key(x) == k then [x] else []) + WithKey(t, key, k)
  {
    if t == [] {
    } else if key(t[0]) > key(x) {
      InsertWithKey(x, t[1..], key, k);
      InsertWithKeyStep(x, t, key, k);
    } else {
      WithKeyCons(x, t, key, k);
    }
  }

  lemma InsertWithKeyStep<T>(x: T, t: seq<T>, key: T -> int, k: int)
    requires t != [] && key(t[0]) > key(x)
    requires WithKey(Insert(x, t[1..], key), key, k)
          == (if key(x) == k then [x] else []) + WithKey(t[1..], key, k)
    ensures WithKey(Insert(x, t, key), key, k)
         == (if key(x) == k then [x] else []) + WithKey(t, key, k)
  {
    var r := Insert(x, t[1..], key);
    assert Insert(x, t, key) == [t[0]] + r;
    WithKeyCons(t[0], r, key, k);
    assert WithKey(t, key, k) == (if key(t[0]) == k then [t[0]] else []) + WithKey(t[1..], key, k);
    if key(x) == k {
      assert WithKey(Insert(x, t, key), key, k) == WithKey(r, key, k);
      assert WithKey(t, key, k) == WithKey(t[1..], key, k);
    } else if key(t[0]) == k {
      assert WithKey(Insert(x, t, key), key, k) == [t[0]] + WithKey(t[1..], key, k);
    } else {
      assert WithKey(Insert(x, t, key), key, k) == WithKey(t[1..], key, k);
    }
  }

  /** The sort orders by key: the result is in non-increasing key order. */
  lemma {:induction false} SortDescSorted<T>(s: seq<T>, key: T -> int)
    ensures SortedDesc(SortDesc(s, key), key)
  {
    if s != [] {
      SortDescSorted(s[1..], key);
      InsertSorted(s[0], SortDesc(s[1..], key), key);
    }
  }

  /** The sort is stable: for every key, the elements with that key come out
      in the order they went in. */
  lemma {:induction false} SortDescStable<T>(s: seq<T>, key: T -> int, k: int)
    ensures WithKey(SortDesc(s, key), key, k) == WithKey(s, key, k)
  {
    if s != [] {
      SortDescStable(s[1..], key, k);
      InsertWithKey(s[0], SortDesc(s[1..], key), key, k);
    }
  }

  /** A selection from a key-sorted sequence is key-sorted. */
  lemma {:induction false} SelectSorted<T>(s: seq<T>, mask: seq<bool>, key: T -> int)
    requires |mask| == |s| && SortedDesc(s, key)
    ensures SortedDesc(Select(s, mask), key)
  {
    if s != [] {
      SelectSorted(s[1..], mask[1..], key);
      var rest := Select(s[1..], mask[1..]);
      if mask[0] {
        forall j | 0 <= j < |rest| ensures key(s[0]) >= key(rest[j]) {
          SelectIn(s[1..], mask[1..], j);
        }
      }
    }
  }

  // ---------------------------------------------------------------------
  // first positions, and the tie order of the stable sort

  /** Python's `s.index(x)`, with `|s|` standing for "absent". */
  function IndexOf<T(==)>(s: seq<T>, x: T): (i: nat)
    ensures i <= |s|
    ensures i < |s| <==> x in s
    ensures i < |s| ==> s[i] == x && forall k :: 0 <= k < i ==> s[k] != x
  {
    if s == [] then 0
    else if s[0] == x then 0
    else 1 + IndexOf(s[1..], x)
  }

  /** Appending after `s` does not move the first position of an element
      already in `s`; a new element lands at the end. */
  lemma IndexOfSnoc<T>(s: seq<T>, x: T, y: T)
    ensures y in s ==> IndexOf(s + [x], y) == IndexOf(s, y)
    ensures y !in s && y == x ==> IndexOf(s + [x], y) == |s|
  {
    var t := s + [x];
    if y in s {
      var i := IndexOf(s, y);
      assert t[i] == y;
      assert forall k :: 0 <= k < i ==> t[k] == s[k];
    } else if y == x {
      assert t[|s|] == y;
      assert forall k :: 0 <= k < |s| ==> t[k] == s[k];
    }
  }

  /** `a` sorts strictly before `b`: a larger key, or the same key and a
      smaller `pos`. */
  predicate Precedes<T>(key: T -> int, pos: T -> int, a: T, b: T) {
    key(a) > key(b) || (key(a) == key(b) && pos(a) < pos(b))
  }

  /** Every pair of positions is in `Precedes` order. */
  ghost predicate Ranked<T>(s: seq<T>, key: T -> int, pos: T -> int) {
    forall i, j :: 0 <= i < j < |s| ==> Precedes(key, pos, s[i], s[j])
  }

  /** A first element that precedes everything after it, followed by a ranked
      sequence, is ranked. */
  lemma ConsRanked<T>(x: T, t: seq<T>, key: T -> int, pos: T -> int)
    requires Ranked(t, key, pos)
    requires forall j :: 0 <= j < |t| ==> Precedes(key, pos, x, t[j])
    ensures Ranked([x] + t, key, pos)
  {
    var u := [x] + t;
    forall i, j | 0 <= i < j < |u| ensures Precedes(key, pos, u[i], u[j]) {
      assert u[j] == t[j - 1];
      if i > 0 {
        assert u[i] == t[i - 1];
      }
    }
  }

  lemma RankedTail<T>(t: seq<T>, key: T -> int, pos: T -> int)
    requires t != [] && Ranked(t, key, pos)
    ensures Ranked(t[1..], key, pos)
    ensures forall j :: 1 <= j < |t| ==> Precedes(key, pos, t[0], t[j])
  {
    forall i, j | 0 <= i < j < |t[1..]| ensures Precedes(key, pos, t[1..][i], t[1..][j]) {
      assert t[1..][i] == t[i + 1] && t[1..][j] == t[j + 1];
    }
  }

  /** An element of a sequence sits at one of its positions. */
  lemma InMultisetAt<T>(s: seq<T>, y: T) returns (m: nat)
    requires y in multiset(s)
    ensures m < |s| && s[m] == y
  {
    m :| 0 <= m < |s| && s[m] == y;
  }

  lemma {:induction false} InsertRanked<T>(x: T, t: seq<T>, key: T -> int, pos: T -> int)
    requires Ranked(t, key, pos)
    requires forall y :: y in t ==> pos(x) < pos(y)
    ensures Ranked(Insert(x, t, key), key, pos)
  {
    if t == [] {
    } else if key(t[0]) > key(x) {
      RankedTail(t, key, pos);
      assert forall y :: y in t[1..] ==> y in t;
      InsertRanked(x, t[1..], key, pos);
      var r := Insert(x, t[1..], key);
      InsertPermutes(x, t[1..], key);
      forall j | 0 <= j < |r| ensures Precedes(key, pos, t[0], r[j]) {
        assert r[j] in multiset(r);
        if r[j] != x {
          var m := InMultisetAt(t[1..], r[j]);
          assert t[m + 1] == r[j];
        }
      }
      ConsRanked(t[0], r, key, pos);
    } else {
      RankedTail(t, key, pos);
      forall j | 0 <= j < |t| ensures Precedes(key, pos, x, t[j]) {
        assert t[j] in t;
      }
      ConsRanked(x, t, key, pos);
    }
  }

  /** For input whose elements come in strictly increasing `pos`, the sort
      puts larger keys first and breaks ties by `pos`: stability, stated on
      positions. */
  lemma {:induction false} SortDescRanked<T>(s: seq<T>, key: T -> int, pos: T -> int)
    requires forall i, j :: 0 <= i < j < |s| ==> pos(s[i]) < pos(s[j])
    ensures Ranked(SortDesc(s, key), key, pos)
  {
    if s != [] {
      var t := s[1..];
      assert forall i, j :: 0 <= i < j < |t| ==> pos(t[i]) < pos(t[j]) by {
        forall i, j | 0 <= i < j < |t| ensures pos(t[i]) < pos(t[j]) {
          assert t[i] == s[i + 1] && t[j] == s[j + 1];
        }
      }
      SortDescRanked(t, key, pos);
      var r := SortDesc(t, key);
      SortDescPermutes(t, key);
      forall y | y in r ensures pos(s[0]) < pos(y) {
        assert y in multiset(r);
        assert y in multiset(t);
        var m :| 0 <= m < |t| && t[m] == y;
        assert s[m + 1] == y;
      }
      InsertRanked(s[0], r, key, pos);
    }
  }
}
