/**
 * Frequency tallies as the source uses them: `collections.Counter` (keys in
 * first-seen order, `most_common` sorted by count with ties in first-seen
 * order), Python's stable `sorted`, and `np.unique` followed by `argmax`.
 */
module Counting {

  /** Extending the first `k` elements by element `k`. */
  lemma PrefixStep<T>(s: seq<T>, k: nat)
    requires k < |s|
    ensures s[..k] + [s[k]] == s[..k + 1]
  {
  }

  /** Number of occurrences of `x` in `s`. */
  function Count<T(==)>(s: seq<T>, x: T): nat {
    multiset(s)[x]
  }

  predicate NoDups<T(==)>(s: seq<T>) {
    forall i, j :: 0 <= i < j < |s| ==> s[i] != s[j]
  }

  /** `idx` picks `a` out of `b`: `a[k]` is `b[idx[k]]`, at strictly increasing positions. */
  predicate Embeds<T(==)>(a: seq<T>, b: seq<T>, idx: seq<nat>) {
    && |idx| == |a|
    && (forall k :: 0 <= k < |a| ==> idx[k] < |b| && a[k] == b[idx[k]])
    && (forall k, l :: 0 <= k < l < |idx| ==> idx[k] < idx[l])
  }

  /** `a` is `b` with some elements dropped: the same elements, in the same order. */
  ghost predicate Subsequence<T>(a: seq<T>, b: seq<T>) {
    exists idx :: Embeds(a, b, idx)
  }

  /** The empty sequence is a subsequence of every sequence. */
  lemma EmptySubsequence<T>(b: seq<T>)
    ensures Subsequence([], b)
  {
    assert Embeds([], b, []);
  }

  /**
   * Going back one position in `s`, and optionally putting that element in
   * front of the subsequence too, keeps a subsequence.
   */
  lemma SubsequenceBack<T>(s: seq<T>, k: nat, keep: bool, a: seq<T>, a': seq<T>)
    requires k < |s| && Subsequence(a, s[k + 1..])
    requires a' == (if keep then [s[k]] else []) + a
    ensures Subsequence(a', s[k..])
  {
    var idx :| Embeds(a, s[k + 1..], idx);
    var shifted := Shifted(a, s[k..], idx);
    if keep {
      var idx' := [0] + shifted;
      forall j | 0 <= j < |a'| ensures idx'[j] < |s[k..]| && a'[j] == s[k..][idx'[j]] {
        if j > 0 {
          assert a'[j] == a[j - 1] && idx'[j] == shifted[j - 1];
        }
      }
      forall j, l | 0 <= j < l < |idx'| ensures idx'[j] < idx'[l] {
        assert idx'[l] == shifted[l - 1];
        if j > 0 {
          assert idx'[j] == shifted[j - 1];
        }
      }
      assert Embeds(a', s[k..], idx');
    } else {
      assert a' == a;
      assert Embeds(a', s[k..], shifted);
    }
  }

  /** An embedding of `a` into `b[1..]`, moved one position on, embeds `a` into `b`. */
  function Shifted<T>(a: seq<T>, b: seq<T>, idx: seq<nat>): (r: seq<nat>)
    requires |b| > 0 && Embeds(a, b[1..], idx)
    ensures Embeds(a, b, r) && forall j :: 0 <= j < |r| ==> r[j] >= 1
  {
    var r := seq(|idx|, j requires 0 <= j < |idx| => idx[j] + 1);
    assert forall j :: 0 <= j < |a| ==> b[1..][idx[j]] == b[r[j]];
    r
  }

  /** Positions that strictly increase and stay below `n` number at most `n`. */
  lemma {:induction false} IncreasingBelow(idx: seq<nat>, n: nat)
    requires forall k :: 0 <= k < |idx| ==> idx[k] < n
    requires forall k, l :: 0 <= k < l < |idx| ==> idx[k] < idx[l]
    ensures |idx| <= n
    decreases |idx|
  {
    if idx != [] {
      var m := |idx| - 1;
      IncreasingBelow(idx[..m], idx[m]);
    }
  }

  /**
   * A subsequence is no longer than the sequence, holds only its elements,
   * and repeats none when the sequence repeats none.
   */
  lemma SubsequenceKeeps<T>(a: seq<T>, b: seq<T>)
    requires Subsequence(a, b)
    ensures |a| <= |b|
    ensures forall x :: x in a ==> x in b
    ensures NoDups(b) ==> NoDups(a)
  {
    var idx :| Embeds(a, b, idx);
    IncreasingBelow(idx, |b|);
    forall x | x in a ensures x in b {
      var k :| 0 <= k < |a| && a[k] == x;
      assert b[idx[k]] == x;
    }
    if NoDups(b) {
      forall k, l | 0 <= k < l < |a| ensures a[k] != a[l] {
        assert idx[k] < idx[l];
      }
    }
  }

  /** Index of the first occurrence of `x` in `s`. */
  function FirstIndex<T(==)>(s: seq<T>, x: T): (i: nat)
    requires x in s
    ensures i < |s| && s[i] == x
    ensures forall k :: 0 <= k < i ==> s[k] != x
  {
    if s[0] == x then 0
    else
      var i' := FirstIndex(s[1..], x);
      i' + 1
  }

  lemma FirstIndexAppend<T>(s: seq<T>, t: seq<T>, x: T)
    requires x in s
    ensures x in s + t && FirstIndex(s + t, x) == FirstIndex(s, x)
  {
    var i := FirstIndex(s, x);
    assert (s + t)[i] == x;
  }

  /** The distinct elements of `s` in order of first occurrence (the key order of a `Counter`). */
  function Distinct<T(==)>(s: seq<T>): (r: seq<T>)
    ensures forall x :: x in r ==> x in s
    ensures forall i :: 0 <= i < |s| ==> s[i] in r
    ensures NoDups(r)
  {
    if s == [] then []
    else
      var d := Distinct(s[..|s| - 1]);
      var last := s[|s| - 1];
      assert forall i :: 0 <= i < |s| - 1 ==> s[i] == s[..|s| - 1][i];
      if last in d then d else d + [last]
  }

  /** `Distinct` lists the elements in the order in which they are first seen. */
  lemma {:induction false} DistinctInFirstSeenOrder<T>(s: seq<T>)
    ensures forall i, j :: 0 <= i < j < |Distinct(s)| ==> FirstIndex(s, Distinct(s)[i]) < FirstIndex(s, Distinct(s)[j])
  {
    if s != [] {
      var init := s[..|s| - 1];
      var last := s[|s| - 1];
      assert s == init + [last];
      DistinctInFirstSeenOrder(init);
      var d := Distinct(init);
      forall y | y in init ensures FirstIndex(s, y) == FirstIndex(init, y) {
        FirstIndexAppend(init, [last], y);
      }
      if last !in d {
        assert last !in init;
        assert FirstIndex(s, last) == |s| - 1;
      }
    }
  }

  predicate SortedBy<T>(s: seq<T>, key: T -> int) {
    forall i, j :: 0 <= i < j < |s| ==> key(s[i]) <= key(s[j])
  }

  /** Inserts `x` after every element whose key is not larger than its own. */
  function InsertBy<T(==)>(x: T, s: seq<T>, key: T -> int): (r: seq<T>)
    ensures |r| == |s| + 1
    ensures multiset(r) == multiset(s) + multiset{x}
  {
    if s == [] || key(x) < key(s[0]) then [x] + s
    else
      assert s == [s[0]] + s[1..];
      [s[0]] + InsertBy(x, s[1..], key)
  }

  /** Inserting adds `x` and nothing else. */
  lemma InsertByMembers<T>(x: T, s: seq<T>, key: T -> int)
    ensures forall y :: y in InsertBy(x, s, key) ==> y == x || y in s
  {
    var r := InsertBy(x, s, key);
    forall y | y in r ensures y == x || y in s {
      assert y in multiset(r);
    }
  }

  /** Inserting into a sorted sequence keeps it sorted. */
  lemma {:induction false} InsertBySorted<T>(x: T, s: seq<T>, key: T -> int)
    requires SortedBy(s, key)
    ensures SortedBy(InsertBy(x, s, key), key)
  {
    if s != [] && key(x) >= key(s[0]) {
      var rest := InsertBy(x, s[1..], key);
      InsertBySorted(x, s[1..], key);
      InsertByMembers(x, s[1..], key);
      assert forall y :: y in rest ==> key(s[0]) <= key(y);
    }
  }

  /** Inserting a new element into a sequence without duplicates keeps it without duplicates. */
  lemma {:induction false} InsertByNoDups<T>(x: T, s: seq<T>, key: T -> int)
    requires NoDups(s) && x !in s
    ensures NoDups(InsertBy(x, s, key))
  {
    if s != [] && key(x) >= key(s[0]) {
      var rest := InsertBy(x, s[1..], key);
      InsertByNoDups(x, s[1..], key);
      InsertByMembers(x, s[1..], key);
      assert s[0] !in rest;
    }
  }

  /** Insertion sort by `key`, ascending and stable (Python's `sorted`). */
  function SortBy<T(==)>(s: seq<T>, key: T -> int): (r: seq<T>)
    ensures |r| == |s| && multiset(r) == multiset(s)
    ensures forall y :: y in r ==> y in s
    ensures SortedBy(r, key)
    ensures NoDups(s) ==> NoDups(r)
  {
    if s == [] then []
    else
      var init, last := s[..|s| - 1], s[|s| - 1];
      assert s == init + [last];
      var sorted := SortBy(init, key);
      InsertByMembers(last, sorted, key);
      InsertBySorted(last, sorted, key);
      assert NoDups(s) ==> NoDups(InsertBy(last, sorted, key)) by {
        if NoDups(s) {
          assert last !in init;
          assert NoDups(init);
          InsertByNoDups(last, sorted, key);
        }
      }
      InsertBy(last, sorted, key)
  }

  /** The elements of `s` whose key is `k`, in order. */
  function KeyFilter<T>(s: seq<T>, key: T -> int, k: int): seq<T> {
    if s == [] then []
    else (if key(s[0]) == k then [s[0]] else []) + KeyFilter(s[1..], key, k)
  }

  lemma {:induction false} KeyFilterAppend<T>(s: seq<T>, t: seq<T>, key: T -> int, k: int)
    ensures KeyFilter(s + t, key, k) == KeyFilter(s, key, k) + KeyFilter(t, key, k)
  {
    if s != [] {
      assert (s + t)[1..] == s[1..] + t;
      KeyFilterAppend(s[1..], t, key, k);
    } else {
      assert s + t == t;
    }
  }

  lemma {:induction false} KeyFilterAbove<T>(s: seq<T>, key: T -> int, k: int)
    requires forall i :: 0 <= i < |s| ==> key(s[i]) > k
    ensures KeyFilter(s, key, k) == []
  {
    if s != [] {
      KeyFilterAbove(s[1..], key, k);
    }
  }

  lemma {:induction false} InsertByStable<T>(x: T, s: seq<T>, key: T -> int, k: int)
    requires SortedBy(s, key)
    ensures KeyFilter(InsertBy(x, s, key), key, k)
         == KeyFilter(s, key, k) + (if key(x) == k then [x] else [])
  {
    if s == [] || key(x) < key(s[0]) {
      InsertFront(x, s, key, k);
    } else {
      assert SortedBy(s[1..], key);
      InsertByStable(x, s[1..], key, k);
      InsertBehind(x, s, key, k);
    }
  }

  /** When `x` goes after the first element, the filter of the rest carries over. */
  lemma InsertBehind<T>(x: T, s: seq<T>, key: T -> int, k: int)
    requires s != [] && key(x) >= key(s[0])
    requires KeyFilter(InsertBy(x, s[1..], key), key, k) == KeyFilter(s[1..], key, k) + (if key(x) == k then [x] else [])
    ensures KeyFilter(InsertBy(x, s, key), key, k)
         == KeyFilter(s, key, k) + (if key(x) == k then [x] else [])
  {
    var rest := InsertBy(x, s[1..], key);
    var h := KeyFilter([s[0]], key, k);
    var tail := if key(x) == k then [x] else [];
    assert InsertBy(x, s, key) == [s[0]] + rest;
    KeyFilterAppend([s[0]], rest, key, k);
    ConsSplit(s);
    KeyFilterAppend([s[0]], s[1..], key, k);
    AppendAssoc(h, KeyFilter(s[1..], key, k), tail);
  }

  lemma ConsSplit<T>(s: seq<T>)
    requires s != []
    ensures [s[0]] + s[1..] == s
  {
  }

  lemma AppendAssoc<T>(a: seq<T>, b: seq<T>, c: seq<T>)
    ensures a + (b + c) == (a + b) + c
  {
  }

  /** An element whose key is below every key of a sorted sequence goes first. */
  lemma InsertFront<T>(x: T, s: seq<T>, key: T -> int, k: int)
    requires SortedBy(s, key) && (s == [] || key(x) < key(s[0]))
    ensures KeyFilter(InsertBy(x, s, key), key, k)
         == KeyFilter(s, key, k) + (if key(x) == k then [x] else [])
  {
    var r := [x] + s;
    assert InsertBy(x, s, key) == r;
    assert r[0] == x && r[1..] == s;
    if key(x) == k {
      assert forall i :: 0 <= i < |s| ==> key(s[i]) > k by {
        forall i | 0 <= i < |s| ensures key(s[i]) > k {
          if i > 0 { assert key(s[0]) <= key(s[i]); }
        }
      }
      KeyFilterAbove(s, key, k);
    } else {
      assert KeyFilter(r, key, k) == KeyFilter(s, key, k);
      assert KeyFilter(s, key, k) + [] == KeyFilter(s, key, k);
    }
  }

  /** Sorting keeps the relative order of the elements that share a key. */
  lemma {:induction false} SortByStable<T>(s: seq<T>, key: T -> int, k: int)
    ensures KeyFilter(SortBy(s, key), key, k) == KeyFilter(s, key, k)
  {
    if s != [] {
      var init, last := s[..|s| - 1], s[|s| - 1];
      assert s == init + [last];
      assert SortBy(s, key) == InsertBy(last, SortBy(init, key), key);
      SortByStable(init, key, k);
      InsertByStable(last, SortBy(init, key), key, k);
      KeyFilterAppend(init, [last], key, k);
      KeyFilterSingle(last, key, k);
    }
  }

  lemma KeyFilterSingle<T>(x: T, key: T -> int, k: int)
    ensures KeyFilter([x], key, k) == if key(x) == k then [x] else []
  {
    assert [x][1..] == [];
  }

  /** Sorting loses no element. */
  lemma SortByKeeps<T>(s: seq<T>, key: T -> int)
    ensures forall i :: 0 <= i < |s| ==> s[i] in SortBy(s, key)
  {
    var r := SortBy(s, key);
    assert forall i :: 0 <= i < |s| ==> s[i] in multiset(r);
  }

  /** The sort key of `most_common`: larger counts first. */
  function CountKey<T(==)>(s: seq<T>): T -> int {
    (x: T) => -(Count(s, x) as int)
  }

  /** `Counter(s).most_common()`: distinct values by decreasing count, ties in first-seen order. */
  function MostCommon<T(==)>(s: seq<T>): (r: seq<T>)
    ensures forall x :: x in r ==> x in s
    ensures forall i :: 0 <= i < |s| ==> s[i] in r
    ensures NoDups(r)
    ensures forall i, j :: 0 <= i < j < |r| ==> Count(s, r[i]) >= Count(s, r[j])
    ensures r == SortBy(Distinct(s), CountKey(s))
  {
    var d := Distinct(s);
    var key := CountKey(s);
    SortByKeeps(d, key);
    var r := SortBy(d, key);
    assert forall i, j :: 0 <= i < j < |r| ==> key(r[i]) <= key(r[j]);
    r
  }

  /** Among equally frequent values, `most_common` keeps the order in which they were first seen. */
  lemma MostCommonTiesInFirstSeenOrder<T>(s: seq<T>, c: int)
    ensures KeyFilter(MostCommon(s), CountKey(s), c) == KeyFilter(Distinct(s), CountKey(s), c)
  {
    SortByStable(Distinct(s), CountKey(s), c);
  }

  /** Index of the first largest value (Python's `max` keeps the first maximum). */
  function FirstLargest(xs: seq<int>): (i: nat)
    requires |xs| > 0
    ensures i < |xs|
    ensures forall j :: 0 <= j < |xs| ==> xs[j] <= xs[i]
    ensures forall j :: 0 <= j < i ==> xs[j] < xs[i]
  {
    if |xs| == 1 then 0
    else
      var i := FirstLargest(xs[1..]) + 1;
      if xs[0] >= xs[i] then 0 else i
  }

  /** The count in `s` of each element of `d`. */
  function Counts<T(==)>(s: seq<T>, d: seq<T>): (c: seq<int>)
    ensures |c| == |d| && forall k :: 0 <= k < |d| ==> c[k] == Count(s, d[k])
  {
    if |d| == 0 then [] else [Count(s, d[0]) as int] + Counts(s, d[1..])
  }

  /**
   * `max(counter, key=counter.get)` and `counter.most_common(1)[0][0]`:
   * the most frequent element, the first seen among equally frequent ones.
   */
  function ModeFirst<T(==)>(s: seq<T>): (m: T)
    requires |s| > 0
    ensures m in s
  {
    var d := Distinct(s);
    assert s[0] in d;
    d[FirstLargest(Counts(s, d))]
  }

  /** No element is more frequent than `ModeFirst(s)`, and none as frequent is seen before it. */
  lemma ModeFirstIsFirstMostFrequent<T>(s: seq<T>, x: T)
    requires |s| > 0
    ensures Count(s, x) <= Count(s, ModeFirst(s))
    ensures x in s && Count(s, x) == Count(s, ModeFirst(s)) ==> FirstIndex(s, ModeFirst(s)) <= FirstIndex(s, x)
  {
    if x in s {
      var d := Distinct(s);
      assert s[0] in d;
      var c := Counts(s, d);
      var i := FirstLargest(c);
      assert ModeFirst(s) == d[i];
      var j :| 0 <= j < |d| && d[j] == x;
      assert c[j] == Count(s, x) && c[i] == Count(s, d[i]);
      if c[j] == c[i] && i != j {
        assert i < j;
        DistinctOrderAt(s, i, j);
      }
    }
  }

  /** Two distinct elements keep the order of their first occurrences. */
  lemma DistinctOrderAt<T>(s: seq<T>, a: nat, b: nat)
    requires a < b < |Distinct(s)|
    ensures FirstIndex(s, Distinct(s)[a]) < FirstIndex(s, Distinct(s)[b])
  {
    DistinctInFirstSeenOrder(s);
  }

  /** The best of `c` by (count in `s` descending, value ascending). */
  function BestAmong(s: seq<int>, c: seq<int>): (m: int)
    requires |c| > 0
    ensures m in c
    ensures forall x :: x in c ==> Count(s, x) < Count(s, m) || (Count(s, x) == Count(s, m) && m <= x)
  {
    if |c| == 1 then c[0]
    else
      var b := BestAmong(s, c[1..]);
      assert forall x :: x in c ==> x == c[0] || x in c[1..];
      if Count(s, c[0]) > Count(s, b) || (Count(s, c[0]) == Count(s, b) && c[0] < b) then c[0] else b
  }

  /** `np.unique` then `argmax`: the smallest among the most frequent values, 0 when `s` is empty. */
  function SmallestMode(s: seq<int>): (m: int)
    ensures |s| == 0 ==> m == 0
    ensures |s| > 0 ==> m in s
    ensures forall x :: Count(s, x) <= Count(s, m)
    ensures |s| > 0 ==> forall x :: Count(s, x) == Count(s, m) ==> m <= x
  {
    if |s| == 0 then 0 else BestAmong(s, s)
  }
}
