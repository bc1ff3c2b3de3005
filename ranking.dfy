/** Python's sorted(items, key=..., reverse=True): a stable sort by a key, largest first. */
module Ranking {

  /** Puts x in front of the first element whose key is not above x's, so x
      lands after every element with a larger key and before every element
      with an equal key that it preceded in the input. */
  function Insert<T>(x: T, s: seq<T>, key: T -> int): (r: seq<T>)
    ensures |r| == |s| + 1
  {
    if s == [] || key(s[0]) <= key(x) then [x] + s
    else [s[0]] + Insert(x, s[1..], key)
  }

  /** Stable descending insertion sort. */
  function SortDesc<T>(s: seq<T>, key: T -> int): (r: seq<T>)
    ensures |r| == |s|
  {
    if s == [] then [] else Insert(s[0], SortDesc(s[1..], key), key)
  }

  /** Keys never increase along s. */
  predicate Descending<T>(s: seq<T>, key: T -> int) {
    forall i, j :: 0 <= i < j < |s| ==> key(s[i]) >= key(s[j])
  }

  /** The elements of s whose key is k, in their order in s. */
  function WithKey<T>(s: seq<T>, key: T -> int, k: int): seq<T> {
    if s == [] then []
    else (if key(s[0]) == k then [s[0]] else []) + WithKey(s[1..], key, k)
  }

  lemma {:induction false} InsertPermutes<T>(x: T, s: seq<T>, key: T -> int)
    ensures multiset(Insert(x, s, key)) == multiset(s) + multiset{x}
    decreases |s|
  {
    if s != [] && key(s[0]) > key(x) {
      InsertPermutes(x, s[1..], key);
      assert s == [s[0]] + s[1..];
    }
  }

  lemma {:induction false} InsertDescending<T>(x: T, s: seq<T>, key: T -> int)
    requires Descending(s, key)
    ensures Descending(Insert(x, s, key), key)
    decreases |s|
  {
    if s != [] && key(s[0]) > key(x) {
      var rest := Insert(x, s[1..], key);
      InsertDescending(x, s[1..], key);
      InsertPermutes(x, s[1..], key);
      forall y | y in rest ensures key(s[0]) >= key(y) {
        assert y in multiset(rest);
        assert y == x || y in multiset(s[1..]);
      }
    }
  }

  lemma {:induction false} InsertStable<T>(x: T, s: seq<T>, key: T -> int, k: int)
    ensures WithKey(Insert(x, s, key), key, k) == WithKey([x] + s, key, k)
    decreases |s|
  {
    if s != [] && key(s[0]) > key(x) {
      InsertStable(x, s[1..], key, k);
      assert ([x] + s)[1..] == s;
      assert ([s[0]] + Insert(x, s[1..], key))[1..] == Insert(x, s[1..], key);
      assert ([x] + s[1..])[1..] == s[1..];
    }
  }

  /** The sort returns a permutation of its input. */
  lemma {:induction false} SortDescPermutes<T>(s: seq<T>, key: T -> int)
    ensures multiset(SortDesc(s, key)) == multiset(s)
    decreases |s|
  {
    if s != [] {
      SortDescPermutes(s[1..], key);
      InsertPermutes(s[0], SortDesc(s[1..], key), key);
      assert s == [s[0]] + s[1..];
    }
  }

  /** The sort orders by non-increasing key. */
  lemma {:induction false} SortDescDescending<T>(s: seq<T>, key: T -> int)
    ensures Descending(SortDesc(s, key), key)
    decreases |s|
  {
    if s != [] {
      SortDescDescending(s[1..], key);
      InsertDescending(s[0], SortDesc(s[1..], key), key);
    }
  }

  /** The sort is stable: the elements of each key keep their input order. */
  lemma {:induction false} SortDescStable<T>(s: seq<T>, key: T -> int, k: int)
    ensures WithKey(SortDesc(s, key), key, k) == WithKey(s, key, k)
    decreases |s|
  {
    if s != [] {
      var rest := SortDesc(s[1..], key);
      SortDescStable(s[1..], key, k);
      InsertStable(s[0], rest, key, k);
      assert ([s[0]] + rest)[1..] == rest;
    }
  }

  /** Stability for every key at once. */
  lemma SortDescStableAll<T>(s: seq<T>, key: T -> int)
    ensures forall k :: WithKey(SortDesc(s, key), key, k) == WithKey(s, key, k)
  {
    forall k
      ensures WithKey(SortDesc(s, key), key, k) == WithKey(s, key, k)
    {
      SortDescStable(s, key, k);
    }
  }

  /** The sum of the keys of s. */
  function Total<T>(s: seq<T>, key: T -> int): int {
    if s == [] then 0 else Total(s[..|s| - 1], key) + key(s[|s| - 1])
  }

  lemma {:induction false} TotalRemove<T>(s: seq<T>, j: nat, key: T -> int)
    requires j < |s|
    ensures Total(s, key) == Total(s[..j] + s[j + 1..], key) + key(s[j])
    decreases |s|
  {
    var n := |s| - 1;
    var rest := s[..j] + s[j + 1..];
    if j < n {
      TotalRemove(s[..n], j, key);
      assert rest[..|rest| - 1] == s[..n][..j] + s[..n][j + 1..];
      assert rest[|rest| - 1] == s[n];
    } else {
      assert rest == s[..n];
    }
  }

  /** Reordering does not change a sum. */
  lemma {:induction false} TotalPermutation<T>(a: seq<T>, b: seq<T>, key: T -> int)
    requires multiset(a) == multiset(b)
    ensures Total(a, key) == Total(b, key)
    decreases |a|
  {
    if a != [] {
      var n := |a| - 1;
      var x := a[n];
      assert a == a[..n] + [x];
      assert x in multiset(b);
      var j :| 0 <= j < |b| && b[j] == x;
      var rest := b[..j] + b[j + 1..];
      assert b == b[..j] + [x] + b[j + 1..];
      assert multiset(b) == multiset(b[..j]) + multiset{x} + multiset(b[j + 1..]);
      assert multiset(a) == multiset(a[..n]) + multiset{x};
      assert multiset(rest) == multiset(b[..j]) + multiset(b[j + 1..]);
      assert multiset(a[..n]) == multiset(a) - multiset{x};
      assert multiset(rest) == multiset(b) - multiset{x};
      TotalPermutation(a[..n], rest, key);
      TotalRemove(b, j, key);
    } else {
      assert b == [];
    }
  }

  /** Cutting a sequence short keeps, for each key, a prefix of the elements with that key. */
  lemma {:induction false} WithKeyPrefix<T>(s: seq<T>, m: nat, key: T -> int, k: int)
    requires m <= |s|
    ensures WithKey(s[..m], key, k) <= WithKey(s, key, k)
    decreases m
  {
    if m > 0 {
      WithKeyPrefix(s[1..], m - 1, key, k);
      assert s[..m][1..] == s[1..][..m - 1];
    }
  }

  /** In a descending sequence, nothing after a cut has a larger key than
      anything before it. */
  lemma PrefixDominates<T>(s: seq<T>, m: nat, key: T -> int)
    requires Descending(s, key)
    requires m <= |s|
    ensures forall x, y :: x in s[..m] && y in s && y !in s[..m] ==> key(y) <= key(x)
  {
    forall x, y | x in s[..m] && y in s && y !in s[..m]
      ensures key(y) <= key(x)
    {
      var i :| 0 <= i < m && s[..m][i] == x;
      var j :| 0 <= j < |s| && s[j] == y;
      assert forall l :: 0 <= l < m ==> s[..m][l] == s[l] != y;
      assert s[i] == x;
    }
  }

  /** Every element with key k shows up in WithKey(s, key, k). */
  lemma {:induction false} WithKeyHas<T>(s: seq<T>, key: T -> int, k: int, j: nat)
    requires j < |s| && key(s[j]) == k
    ensures exists q :: 0 <= q < |WithKey(s, key, k)| && WithKey(s, key, k)[q] == s[j]
    decreases |s|
  {
    if j == 0 {
      assert WithKey(s, key, k)[0] == s[0];
    } else {
      WithKeyHas(s[1..], key, k, j - 1);
      var q :| 0 <= q < |WithKey(s[1..], key, k)| && WithKey(s[1..], key, k)[q] == s[1..][j - 1];
      var pre := if key(s[0]) == k then [s[0]] else [];
      assert WithKey(s, key, k)[|pre| + q] == s[j];
    }
  }

  /** Two elements with key k appear in WithKey(s, key, k) in their order in s. */
  lemma {:induction false} WithKeyPicks<T>(s: seq<T>, key: T -> int, k: int, i: nat, j: nat)
    requires i < j < |s| && key(s[i]) == k && key(s[j]) == k
    ensures exists p, q :: 0 <= p < q < |WithKey(s, key, k)| &&
                           WithKey(s, key, k)[p] == s[i] && WithKey(s, key, k)[q] == s[j]
    decreases |s|
  {
    var w := WithKey(s, key, k);
    if i == 0 {
      WithKeyHas(s[1..], key, k, j - 1);
      var q :| 0 <= q < |WithKey(s[1..], key, k)| && WithKey(s[1..], key, k)[q] == s[1..][j - 1];
      assert w[0] == s[0] && w[q + 1] == s[j];
    } else {
      WithKeyPicks(s[1..], key, k, i - 1, j - 1);
      var w' := WithKey(s[1..], key, k);
      var p, q :| 0 <= p < q < |w'| && w'[p] == s[1..][i - 1] && w'[q] == s[1..][j - 1];
      var pre := if key(s[0]) == k then [s[0]] else [];
      assert w == pre + w';
      assert w[|pre| + p] == s[i] && w[|pre| + q] == s[j];
    }
  }

  /** An element of WithKey(t, key, k) is an element of t. */
  lemma {:induction false} WithKeyIn<T>(t: seq<T>, key: T -> int, k: int, q: nat)
    requires q < |WithKey(t, key, k)|
    ensures exists b :: 0 <= b < |t| && t[b] == WithKey(t, key, k)[q]
    decreases |t|
  {
    var pre := if key(t[0]) == k then [t[0]] else [];
    var w' := WithKey(t[1..], key, k);
    assert WithKey(t, key, k) == pre + w';
    if q < |pre| {
      assert t[0] == WithKey(t, key, k)[q];
    } else {
      WithKeyIn(t[1..], key, k, q - |pre|);
      var b :| 0 <= b < |t[1..]| && t[1..][b] == w'[q - |pre|];
      assert t[b + 1] == WithKey(t, key, k)[q];
    }
  }

  /** Two positions of WithKey(t, key, k) come from positions of t in the same order. */
  lemma {:induction false} WithKeyFrom<T>(t: seq<T>, key: T -> int, k: int, p: nat, q: nat)
    requires p < q < |WithKey(t, key, k)|
    ensures exists a, b :: 0 <= a < b < |t| && t[a] == WithKey(t, key, k)[p] && t[b] == WithKey(t, key, k)[q]
    decreases |t|
  {
    var pre := if key(t[0]) == k then [t[0]] else [];
    var w' := WithKey(t[1..], key, k);
    assert WithKey(t, key, k) == pre + w';
    if p < |pre| {
      WithKeyIn(t[1..], key, k, q - 1);
      var b :| 0 <= b < |t[1..]| && t[1..][b] == w'[q - 1];
      assert t[0] == WithKey(t, key, k)[p] && t[b + 1] == WithKey(t, key, k)[q];
    } else {
      WithKeyFrom(t[1..], key, k, p - |pre|, q - |pre|);
      var a, b :| 0 <= a < b < |t[1..]| && t[1..][a] == w'[p - |pre|] && t[1..][b] == w'[q - |pre|];
      assert t[a + 1] == WithKey(t, key, k)[p] && t[b + 1] == WithKey(t, key, k)[q];
    }
  }

  /** When s and t agree on WithKey for every key, two elements of s with equal
      keys occur in t in the same order. */
  lemma SameOrderForTies<T>(s: seq<T>, t: seq<T>, key: T -> int, i: nat, j: nat)
    requires forall k :: WithKey(s, key, k) == WithKey(t, key, k)
    requires i < j < |s| && key(s[i]) == key(s[j])
    ensures exists a, b :: 0 <= a < b < |t| && t[a] == s[i] && t[b] == s[j]
  {
    var k := key(s[i]);
    WithKeyPicks(s, key, k, i, j);
    var p, q :| 0 <= p < q < |WithKey(s, key, k)| && WithKey(s, key, k)[p] == s[i] && WithKey(s, key, k)[q] == s[j];
    assert WithKey(s, key, k) == WithKey(t, key, k);
    WithKeyFrom(t, key, k, p, q);
  }
}
