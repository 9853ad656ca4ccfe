/**
 * The table operations the consolidation step borrows from pandas, on plain
 * sequences of rows: row filtering, `drop_duplicates` keeping the first row
 * of each key, and `sort_values` ascending with missing keys last.
 */
module Tables {
  import opened Wrappers

  /** `a` is `b` with some elements left out, the rest in their original order. */
  ghost predicate IsSubsequence<T>(a: seq<T>, b: seq<T>)
    decreases |b|
  {
    a == [] || (b != [] && ((a[0] == b[0] && IsSubsequence(a[1..], b[1..])) || IsSubsequence(a, b[1..])))
  }

  /** A boolean row mask: the rows that satisfy `keep`, in order. */
  function Filter<T(==)>(s: seq<T>, keep: T -> bool): (r: seq<T>)
    ensures forall j :: 0 <= j < |r| ==> r[j] in s && keep(r[j])
    ensures forall i :: 0 <= i < |s| && keep(s[i]) ==> s[i] in r
    ensures IsSubsequence(r, s)
  {
    if s == [] then []
    else
      var rest := Filter(s[1..], keep);
      if keep(s[0]) then
        assert ([s[0]] + rest)[1..] == rest;
        [s[0]] + rest
      else
        assert [] + rest == rest;
        rest
  }

  /** The mask keeps every row that satisfies it as often as it occurs, and no other row. */
  lemma {:induction false} FilterCount<T>(s: seq<T>, keep: T -> bool)
    ensures forall x :: multiset(Filter(s, keep))[x] == if keep(x) then multiset(s)[x] else 0
  {
    if s != [] {
      FilterCount(s[1..], keep);
      assert s == [s[0]] + s[1..];
    }
  }

  /** The row at `i` is the first row of `s` with its key. */
  predicate FirstOfKey<T, K(==)>(s: seq<T>, key: T -> K, i: int) {
    0 <= i < |s| && forall m :: 0 <= m < i ==> key(s[m]) != key(s[i])
  }

  /** What `DedupBy` promises, as one predicate so that its proof can be split into steps. */
  ghost predicate DedupOf<T, K>(r: seq<T>, s: seq<T>, key: T -> K) {
    && (forall i, j :: 0 <= i < j < |r| ==> key(r[i]) != key(r[j]))
    && (forall j :: 0 <= j < |r| ==> r[j] in s)
    && (forall i :: FirstOfKey(s, key, i) ==> s[i] in r)
    && IsSubsequence(r, s)
  }

  /**
   * `drop_duplicates(subset=key, keep='first')`: one row per key, the first
   * one, in the original order.
   */
  function DedupBy<T(==), K(==)>(s: seq<T>, key: T -> K): (r: seq<T>)
    ensures forall i, j :: 0 <= i < j < |r| ==> key(r[i]) != key(r[j])
    ensures forall j :: 0 <= j < |r| ==> r[j] in s
    ensures forall i :: 0 <= i < |s| ==> s[FirstIndex(s, key, i)] in r
    ensures IsSubsequence(r, s)
  {
    if s == [] then []
    else
      var p, x := s[..|s| - 1], s[|s| - 1];
      var rp := DedupBy(p, key);
      assert forall i :: FirstOfKey(p, key, i) ==> FirstIndex(p, key, i) == i;
      var r := if exists i :: 0 <= i < |p| && key(p[i]) == key(x) then rp else rp + [x];
      DedupStep(s, key, rp, r);
      assert forall i :: 0 <= i < |s| ==> FirstOfKey(s, key, FirstIndex(s, key, i));
      r
  }

  /** One step of `DedupBy`: the last row is kept exactly when no earlier row has its key. */
  lemma DedupStep<T, K>(s: seq<T>, key: T -> K, rp: seq<T>, r: seq<T>)
    requires s != [] && DedupOf(rp, s[..|s| - 1], key)
    requires r == if exists i :: 0 <= i < |s| - 1 && key(s[i]) == key(s[|s| - 1]) then rp else rp + [s[|s| - 1]]
    ensures DedupOf(r, s, key)
  {
    var p, x := s[..|s| - 1], s[|s| - 1];
    assert s == p + [x];
    assert forall i :: 0 <= i < |p| ==> FirstOfKey(s, key, i) == FirstOfKey(p, key, i);
    if exists i :: 0 <= i < |p| && key(p[i]) == key(x) {
      assert !FirstOfKey(s, key, |p|);
      SubsequenceSkip(rp, [], p);
      SubsequenceExtend(rp, p, x);
    } else {
      assert FirstOfKey(s, key, |p|);
      forall i, j | 0 <= i < j < |r| ensures key(r[i]) != key(r[j]) {
        if j == |rp| {
          assert r[i] in p;
        }
      }
      SubsequenceAppend(rp, p, x);
    }
  }

  /**
   * Where `DedupBy` takes its rows from: the positions of the first row of
   * each key, in increasing order, and no other position.
   */
  lemma {:induction false} DedupByIndices<T, K>(s: seq<T>, key: T -> K) returns (idx: seq<int>)
    ensures |idx| == |DedupBy(s, key)|
    ensures forall k :: 0 <= k < |idx| ==> 0 <= idx[k] < |s| && DedupBy(s, key)[k] == s[idx[k]]
    ensures forall k1, k2 :: 0 <= k1 < k2 < |idx| ==> idx[k1] < idx[k2]
    ensures forall i :: 0 <= i < |s| ==> (i in idx <==> FirstOfKey(s, key, i))
    decreases |s|
  {
    if s == [] {
      idx := [];
    } else {
      var p, x := s[..|s| - 1], s[|s| - 1];
      var ip := DedupByIndices(p, key);
      assert forall i :: 0 <= i < |p| ==> FirstOfKey(s, key, i) == FirstOfKey(p, key, i);
      if exists i :: 0 <= i < |p| && key(p[i]) == key(x) {
        assert DedupBy(s, key) == DedupBy(p, key);
        assert !FirstOfKey(s, key, |p|);
        idx := ip;
      } else {
        assert DedupBy(s, key) == DedupBy(p, key) + [x];
        assert FirstOfKey(s, key, |p|);
        idx := ip + [|p|];
      }
    }
  }

  /** A subsequence of `b` is one of `b + [x]`. */
  lemma {:induction false} SubsequenceExtend<T>(a: seq<T>, b: seq<T>, x: T)
    requires IsSubsequence(a, b)
    ensures IsSubsequence(a, b + [x])
    decreases |b|
  {
    if a != [] {
      assert (b + [x])[1..] == b[1..] + [x];
      if a[0] == b[0] && IsSubsequence(a[1..], b[1..]) {
        SubsequenceExtend(a[1..], b[1..], x);
      } else {
        SubsequenceExtend(a, b[1..], x);
      }
    }
  }

  /** The index of the first row sharing the key of row `i`. */
  function FirstIndex<T, K(==)>(s: seq<T>, key: T -> K, i: int): (f: int)
    requires 0 <= i < |s|
    ensures FirstOfKey(s, key, f) && f <= i && key(s[f]) == key(s[i])
    decreases i
  {
    if exists m :: 0 <= m < i && key(s[m]) == key(s[i]) then
      var m :| 0 <= m < i && key(s[m]) == key(s[i]);
      FirstIndex(s, key, m)
    else i
  }

  lemma {:induction false} SubsequenceAppend<T>(a: seq<T>, b: seq<T>, x: T)
    requires IsSubsequence(a, b)
    ensures IsSubsequence(a + [x], b + [x])
    decreases |b|
  {
    if a == [] {
      assert a + [x] == [x];
      SubsequenceOfSelf([x]);
      SubsequenceSkip([x], b, [x]);
    } else {
      assert b != [];
      assert (a + [x])[1..] == a[1..] + [x];
      assert (b + [x])[1..] == b[1..] + [x];
      if a[0] == b[0] && IsSubsequence(a[1..], b[1..]) {
        SubsequenceAppend(a[1..], b[1..], x);
      } else {
        SubsequenceAppend(a, b[1..], x);
      }
    }
  }

  lemma {:induction false} SubsequenceOfSelf<T>(a: seq<T>)
    ensures IsSubsequence(a, a)
    decreases |a|
  {
    if a != [] {
      SubsequenceOfSelf(a[1..]);
    }
  }

  /** Rows placed in front of `b` may all be skipped. */
  lemma {:induction false} SubsequenceSkip<T>(a: seq<T>, skipped: seq<T>, b: seq<T>)
    requires IsSubsequence(a, b)
    ensures IsSubsequence(a, skipped + b)
    decreases |skipped|
  {
    if skipped == [] {
      assert skipped + b == b;
    } else {
      SubsequenceSkip(a, skipped[1..], b);
      assert (skipped + b)[1..] == skipped[1..] + b;
    }
  }

  /** Every element of a subsequence is an element of the whole. */
  lemma {:induction false} SubsequenceMember<T>(a: seq<T>, b: seq<T>, j: int)
    requires IsSubsequence(a, b) && 0 <= j < |a|
    ensures a[j] in b
    decreases |b|
  {
    if a[0] == b[0] && IsSubsequence(a[1..], b[1..]) {
      if j > 0 {
        SubsequenceMember(a[1..], b[1..], j - 1);
      }
    } else {
      SubsequenceMember(a, b[1..], j);
    }
  }

  /** Rows kept in order from rows with distinct keys still have distinct keys. */
  lemma {:induction false} SubsequenceKeepsDistinct<T, K>(a: seq<T>, b: seq<T>, key: T -> K, i: int, j: int)
    requires IsSubsequence(a, b)
    requires forall x, y :: 0 <= x < y < |b| ==> key(b[x]) != key(b[y])
    requires 0 <= i < j < |a|
    ensures key(a[i]) != key(a[j])
    decreases |b|
  {
    if a[0] == b[0] && IsSubsequence(a[1..], b[1..]) {
      if i == 0 {
        SubsequenceMember(a[1..], b[1..], j - 1);
        var y :| 0 <= y < |b[1..]| && b[1..][y] == a[j];
        assert b[y + 1] == a[j];
      } else {
        SubsequenceKeepsDistinct(a[1..], b[1..], key, i - 1, j - 1);
      }
    } else {
      SubsequenceKeepsDistinct(a, b[1..], key, i, j);
    }
  }

  /** `sort_values` ascending: a missing key sorts after every present one (`na_position='last'`). */
  predicate KeyLe(a: Option<real>, b: Option<real>) {
    b.None? || (a.Some? && a.value <= b.value)
  }

  predicate SortedBy<T>(s: seq<T>, key: T -> Option<real>) {
    forall i, j :: 0 <= i < j < |s| ==> KeyLe(key(s[i]), key(s[j]))
  }

  /** Sorted rows: present keys never decrease, and rows without a key come after all rows with one. */
  lemma SortedMeans<T>(s: seq<T>, key: T -> Option<real>)
    requires SortedBy(s, key)
    ensures forall i :: 0 <= i < |s| - 1 && key(s[i]).Some? && key(s[i + 1]).Some? ==> key(s[i]).value <= key(s[i + 1]).value
    ensures forall i, j :: 0 <= i < |s| && 0 <= j < |s| && key(s[i]).None? && key(s[j]).Some? ==> j < i
  {
  }

  function Insert<T(==)>(x: T, s: seq<T>, key: T -> Option<real>): (r: seq<T>)
    requires SortedBy(s, key)
    ensures SortedBy(r, key)
    ensures multiset(r) == multiset(s) + multiset{x}
  {
    if s == [] || KeyLe(key(x), key(s[0])) then
      assert forall j :: 0 <= j < |s| ==> KeyLe(key(x), key(s[j]));
      [x] + s
    else
      var rest := Insert(x, s[1..], key);
      assert s == [s[0]] + s[1..];
      assert forall y :: y in rest ==> y in multiset(s[1..]) + multiset{x};
      assert forall j :: 0 <= j < |rest| ==> KeyLe(key(s[0]), key(rest[j])) by {
        forall j | 0 <= j < |rest| ensures KeyLe(key(s[0]), key(rest[j])) {
          assert rest[j] in multiset(s[1..]) + multiset{x};
          if rest[j] != x {
            assert rest[j] in s[1..];
          }
        }
      }
      [s[0]] + rest
  }

  /** `sort_values(by=key)`: the same rows, ordered by key; the order among equal keys is not fixed. */
  function SortBy<T(==)>(s: seq<T>, key: T -> Option<real>): (r: seq<T>)
    ensures SortedBy(r, key)
    ensures multiset(r) == multiset(s)
  {
    if s == [] then []
    else
      assert s == [s[0]] + s[1..];
      Insert(s[0], SortBy(s[1..], key), key)
  }

  /** A property every row has holds of every row of a permutation. */
  lemma PermutationKeeps<T>(s: seq<T>, r: seq<T>, p: T -> bool)
    requires multiset(r) == multiset(s)
    requires forall i :: 0 <= i < |s| ==> p(s[i])
    ensures forall k :: 0 <= k < |r| ==> p(r[k])
  {
    forall k | 0 <= k < |r|
      ensures p(r[k])
    {
      assert r[k] in multiset(s);
    }
  }

  /** Where a row of `s` sits in a permutation `r` of it. */
  lemma PermutationIndex<T>(s: seq<T>, r: seq<T>, j: int) returns (k: int)
    requires multiset(r) == multiset(s) && 0 <= j < |s|
    ensures 0 <= k < |r| && r[k] == s[j]
  {
    assert s[j] in multiset(r);
    k :| 0 <= k < |r| && r[k] == s[j];
  }

  /** A permutation of rows whose keys are distinct has distinct keys too. */
  lemma PermutationKeepsDistinct<T, K>(s: seq<T>, r: seq<T>, key: T -> K)
    requires multiset(r) == multiset(s)
    requires forall i, j :: 0 <= i < j < |s| ==> key(s[i]) != key(s[j])
    ensures forall i, j :: 0 <= i < j < |r| ==> key(r[i]) != key(r[j])
  {
    forall i, j | 0 <= i < j < |r|
      ensures key(r[i]) != key(r[j])
    {
      if key(r[i]) == key(r[j]) {
        assert r[i] in multiset(s) && r[j] in multiset(s);
        var a :| 0 <= a < |s| && s[a] == r[i];
        var b :| 0 <= b < |s| && s[b] == r[j];
        assert a == b;
        CountTwice(r, i, j);
        CountOnce(s, key, r[i]);
        assert false;
      }
    }
  }

  lemma CountTwice<T>(r: seq<T>, i: int, j: int)
    requires 0 <= i < j < |r| && r[i] == r[j]
    ensures multiset(r)[r[i]] >= 2
  {
    assert r == r[..j] + [r[j]] + r[j + 1..];
    assert r[..j][i] == r[i];
  }

  lemma {:induction false} CountOnce<T, K>(s: seq<T>, key: T -> K, x: T)
    requires forall i, j :: 0 <= i < j < |s| ==> key(s[i]) != key(s[j])
    ensures multiset(s)[x] <= 1
  {
    if s != [] {
      var rest := s[1..];
      assert forall i, j :: 0 <= i < j < |rest| ==> key(rest[i]) != key(rest[j]) by {
        forall i, j | 0 <= i < j < |rest| ensures key(rest[i]) != key(rest[j]) {
          assert rest[i] == s[i + 1] && rest[j] == s[j + 1];
        }
      }
      CountOnce(rest, key, x);
      assert s == [s[0]] + rest;
    }
  }
}
