/** Stable sorting by a real-valued key, and the Python slices the services
    apply to sorted lists. Python's `sorted` and `list.sort` are stable, also
    with `reverse=True`, which keeps equal keys in their original order. */
module Sorting {

  predicate SortedBy<T>(s: seq<T>, key: T -> real) {
    forall i, j :: 0 <= i < j < |s| ==> key(s[i]) <= key(s[j])
  }

  /** The elements whose key is `v`, in their order in `s`. */
  function WithKey<T>(s: seq<T>, key: T -> real, v: real): seq<T> {
    if s == [] then []
    else (if key(s[0]) == v then [s[0]] else []) + WithKey(s[1..], key, v)
  }

  /** Inserts `x` before the first element whose key is not smaller. */
  function Insert<T>(x: T, s: seq<T>, key: T -> real): seq<T> {
    if s == [] || key(x) <= key(s[0]) then [x] + s
    else [s[0]] + Insert(x, s[1..], key)
  }

  /** Stable insertion sort, ascending by `key`. */
  function SortBy<T>(s: seq<T>, key: T -> real): seq<T> {
    if s == [] then [] else Insert(s[0], SortBy(s[1..], key), key)
  }

  lemma {:induction false} InsertPermutation<T>(x: T, s: seq<T>, key: T -> real)
    ensures multiset(Insert(x, s, key)) == multiset(s) + multiset{x}
  {
    if s != [] && key(x) > key(s[0]) {
      InsertPermutation(x, s[1..], key);
      assert s == [s[0]] + s[1..];
    }
  }

  lemma SortedTail<T>(s: seq<T>, key: T -> real)
    requires s != [] && SortedBy(s, key)
    ensures SortedBy(s[1..], key)
    ensures forall i :: 0 <= i < |s| ==> key(s[0]) <= key(s[i])
  {
    forall i, j | 0 <= i < j < |s| - 1 ensures key(s[1..][i]) <= key(s[1..][j]) {
      assert s[1..][i] == s[i + 1] && s[1..][j] == s[j + 1];
    }
  }

  lemma {:induction false} InsertSorted<T>(x: T, s: seq<T>, key: T -> real)
    requires SortedBy(s, key)
    ensures SortedBy(Insert(x, s, key), key)
    ensures Insert(x, s, key)[0] == x || (s != [] && Insert(x, s, key)[0] == s[0])
  {
    if s != [] && key(x) > key(s[0]) {
      SortedTail(s, key);
      InsertSorted(x, s[1..], key);
      var r := Insert(x, s[1..], key);
      assert key(s[0]) <= key(r[0]);
      forall i, j | 0 <= i < j < |r| + 1 ensures key(([s[0]] + r)[i]) <= key(([s[0]] + r)[j]) {
        if i == 0 && j > 1 {
          assert key(r[0]) <= key(r[j - 1]);
        }
      }
    }
  }

  lemma WithKeyCons<T>(y: T, t: seq<T>, key: T -> real, v: real)
    ensures WithKey([y] + t, key, v) == (if key(y) == v then [y] else []) + WithKey(t, key, v)
  {
    assert ([y] + t)[0] == y && ([y] + t)[1..] == t;
  }

  lemma {:induction false} InsertWithKey<T>(x: T, s: seq<T>, key: T -> real, v: real)
    requires SortedBy(s, key)
    ensures WithKey(Insert(x, s, key), key, v) == (if key(x) == v then [x] else []) + WithKey(s, key, v)
  {
    if s == [] || key(x) <= key(s[0]) {
      WithKeyCons(x, s, key, v);
    } else {
      var y, t := s[0], s[1..];
      assert s == [y] + t;
      SortedTail(s, key);
      InsertWithKey(x, t, key, v);
      var r := Insert(x, t, key);
      assert Insert(x, s, key) == [y] + r;
      WithKeyCons(y, r, key, v);
      WithKeyCons(y, t, key, v);
      var head := if key(y) == v then [y] else [];
      var mid := if key(x) == v then [x] else [];
      assert head == [] || mid == [];
      assert WithKey(Insert(x, s, key), key, v) == head + (mid + WithKey(t, key, v));
    }
  }

  /** The sort rearranges its input. */
  lemma {:induction false} SortByPermutation<T>(s: seq<T>, key: T -> real)
    ensures multiset(SortBy(s, key)) == multiset(s)
  {
    if s != [] {
      SortByPermutation(s[1..], key);
      InsertPermutation(s[0], SortBy(s[1..], key), key);
      assert s == [s[0]] + s[1..];
    }
  }

  /** The result is ascending by key. */
  lemma {:induction false} SortBySorted<T>(s: seq<T>, key: T -> real)
    ensures SortedBy(SortBy(s, key), key)
  {
    if s != [] {
      SortBySorted(s[1..], key);
      InsertSorted(s[0], SortBy(s[1..], key), key);
    }
  }

  /** The sort is stable: the elements with any one key keep their order. */
  lemma {:induction false} SortByStable<T>(s: seq<T>, key: T -> real, v: real)
    ensures WithKey(SortBy(s, key), key, v) == WithKey(s, key, v)
  {
    if s != [] {
      SortByStable(s[1..], key, v);
      SortBySorted(s[1..], key);
      InsertWithKey(s[0], SortBy(s[1..], key), key, v);
    }
  }

  lemma SortByLength<T>(s: seq<T>, key: T -> real)
    ensures |SortBy(s, key)| == |s|
  {
    SortByPermutation(s, key);
    assert |multiset(SortBy(s, key))| == |multiset(s)|;
  }

  /** `sorted(s, key=key, reverse=True)`: descending by key, ties in their
      original order. */
  function SortDesc<T>(s: seq<T>, key: T -> real): seq<T> {
    SortBy(s, Neg(key))
  }

  function Neg<T>(key: T -> real): T -> real {
    x => -key(x)
  }

  predicate SortedDesc<T>(s: seq<T>, key: T -> real) {
    forall i, j :: 0 <= i < j < |s| ==> key(s[i]) >= key(s[j])
  }

  /** Descending sort: a permutation, non-increasing, and stable. */
  lemma SortDescFacts<T>(s: seq<T>, key: T -> real)
    ensures multiset(SortDesc(s, key)) == multiset(s) && |SortDesc(s, key)| == |s|
    ensures SortedDesc(SortDesc(s, key), key)
    ensures forall v :: WithKey(SortDesc(s, key), Neg(key), v) == WithKey(s, Neg(key), v)
  {
    var k := Neg(key);
    SortByPermutation(s, k);
    SortByLength(s, k);
    SortBySorted(s, k);
    var r := SortDesc(s, key);
    forall i, j | 0 <= i < j < |r| ensures key(r[i]) >= key(r[j]) {
      assert k(r[i]) <= k(r[j]);
    }
    forall v ensures WithKey(r, k, v) == WithKey(s, k, v) {
      SortByStable(s, k, v);
    }
  }

  /** Python's `s[:k]`: the first k elements; a negative k drops that many
      from the end. */
  function PyPrefix<T>(s: seq<T>, k: int): (r: seq<T>)
    ensures |r| <= |s|
    ensures k >= 0 ==> |r| == if k < |s| then k else |s|
    ensures k < 0 ==> |r| == if -k < |s| then |s| + k else 0
    ensures r == s[..|r|]
  {
    if k >= |s| then s
    else if k >= 0 then s[..k]
    else if -k >= |s| then []
    else s[..|s| + k]
  }

  /** Python's `s[-k:]`: the last k elements for k >= 1, but the whole list
      for k == 0 (since `-0` is `0`); a negative k drops that many from the
      front. */
  function PyTail<T>(s: seq<T>, k: int): (r: seq<T>)
    ensures |r| <= |s|
    ensures k == 0 ==> r == s
    ensures k > 0 ==> |r| == if k < |s| then k else |s|
    ensures k < 0 ==> |r| == if -k < |s| then |s| + k else 0
    ensures r == s[|s| - |r|..]
  {
    if k == 0 then s
    else if k > 0 then (if k >= |s| then s else s[|s| - k..])
    else if -k >= |s| then []
    else s[-k..]
  }

  function Reverse<T>(s: seq<T>): (r: seq<T>)
    ensures |r| == |s|
    ensures forall i :: 0 <= i < |s| ==> r[i] == s[|s| - 1 - i]
  {
    seq(|s|, i requires 0 <= i < |s| => s[|s| - 1 - i])
  }

  /** `s[::-1][::-1] == s`, and reversing only reorders. */
  lemma {:induction false} ReverseFacts<T>(s: seq<T>)
    ensures Reverse(Reverse(s)) == s
    ensures multiset(Reverse(s)) == multiset(s)
  {
    if s != [] {
      var t := s[1..];
      ReverseFacts(t);
      assert Reverse(s) == Reverse(t) + [s[0]];
      assert s == [s[0]] + t;
    }
  }

  lemma ReversedSuffixDesc<T>(a: seq<T>, t: seq<T>, key: T -> real)
    requires SortedBy(a, key)
    requires |t| <= |a| && t == a[|a| - |t|..]
    ensures SortedDesc(Reverse(t), key)
  {
    var r := Reverse(t);
    var off := |a| - |t|;
    forall i, j | 0 <= i < j < |r| ensures key(r[i]) >= key(r[j]) {
      var hi, lo := off + |t| - 1 - i, off + |t| - 1 - j;
      assert t[|t| - 1 - i] == a[hi];
      assert t[|t| - 1 - j] == a[lo];
      assert key(a[lo]) <= key(a[hi]);
    }
  }

  /** `a[-k:][::-1]` of an ascending list is descending. */
  lemma TailReversedDesc<T>(a: seq<T>, k: int, key: T -> real)
    requires SortedBy(a, key)
    ensures SortedDesc(Reverse(PyTail(a, k)), key)
  {
    ReversedSuffixDesc(a, PyTail(a, k), key);
  }

  /** `a[-k:][::-1]` of an ascending list keeps the largest keys: nothing
      it leaves out has a larger key than anything it keeps. */
  lemma TailReversedBest<T>(a: seq<T>, k: int, key: T -> real)
    requires SortedBy(a, key)
    ensures forall x, j :: x in a && x !in Reverse(PyTail(a, k)) && 0 <= j < |Reverse(PyTail(a, k))| ==>
      key(x) <= key(Reverse(PyTail(a, k))[j])
  {
    var t := PyTail(a, k);
    var r := Reverse(t);
    var off := |a| - |t|;
    forall m | off <= m < |a| ensures a[m] in r {
      assert t[m - off] == a[m];
      assert r[|t| - 1 - (m - off)] == a[m];
    }
    forall x, j | x in a && x !in r && 0 <= j < |r| ensures key(x) <= key(r[j]) {
      var m :| 0 <= m < |a| && a[m] == x;
      assert r[j] == t[|t| - 1 - j] == a[off + |t| - 1 - j];
    }
  }

  /** `s[:k]` of a descending list keeps the largest keys: nothing it leaves
      out has a larger key than anything it keeps. */
  lemma PrefixBest<T>(s: seq<T>, k: int, key: T -> real)
    requires SortedDesc(s, key)
    ensures forall x, j :: x in s && x !in PyPrefix(s, k) && 0 <= j < |PyPrefix(s, k)| ==>
      key(x) <= key(PyPrefix(s, k)[j])
  {
    var p := PyPrefix(s, k);
    assert forall m :: 0 <= m < |p| ==> p[m] == s[m];
    forall x, j | x in s && x !in p && 0 <= j < |p| ensures key(x) <= key(p[j]) {
      var m :| 0 <= m < |s| && s[m] == x;
      assert p[j] == s[j];
    }
  }

  /** In a list whose elements have distinct `f`-values each element
      occurs once. */
  lemma DistinctOnce<T, K>(vs: seq<T>, p: nat, f: T -> K)
    requires forall a, b :: 0 <= a < b < |vs| ==> f(vs[a]) != f(vs[b])
    requires p < |vs|
    ensures multiset(vs)[vs[p]] == 1
  {
    assert vs == vs[..p] + [vs[p]] + vs[p + 1..];
    var before, after := vs[..p], vs[p + 1..];
    assert vs[p] !in before by {
      forall m | 0 <= m < |before| ensures before[m] != vs[p] { assert before[m] == vs[m]; }
    }
    assert vs[p] !in after by {
      forall m | 0 <= m < |after| ensures after[m] != vs[p] { assert after[m] == vs[p + 1 + m]; }
    }
    assert multiset(vs) == multiset(before) + multiset{vs[p]} + multiset(after);
  }

  /** Rearranging a list keeps its `f`-values distinct. */
  lemma DistinctUnderPermutation<T, K>(vs: seq<T>, s: seq<T>, f: T -> K)
    requires forall a, b :: 0 <= a < b < |vs| ==> f(vs[a]) != f(vs[b])
    requires multiset(s) == multiset(vs)
    ensures forall a, b :: 0 <= a < b < |s| ==> f(s[a]) != f(s[b])
  {
    forall a, b | 0 <= a < b < |s| ensures f(s[a]) != f(s[b]) {
      if f(s[a]) == f(s[b]) {
        assert s[a] in multiset(vs) && s[b] in multiset(vs);
        var p :| 0 <= p < |vs| && vs[p] == s[a];
        var q :| 0 <= q < |vs| && vs[q] == s[b];
        if p == q {
          var rest := s[..a] + s[a + 1..];
          assert s == s[..a] + [s[a]] + s[a + 1..];
          assert s[b] in rest by { assert rest[b - 1] == s[b]; }
          assert multiset(s) == multiset(rest) + multiset{s[a]};
          DistinctOnce(vs, p, f);
        }
      }
    }
  }
}
