/** Python dicts with string keys, as association lists in insertion order:
    assigning to a present key keeps its position, a new key goes last, and
    iteration follows that order. */
module Dicts {
  import opened Wrappers

  predicate DistinctKeys<V>(es: seq<(string, V)>) {
    forall i, j :: 0 <= i < j < |es| ==> es[i].0 != es[j].0
  }

  predicate HasKey<V>(es: seq<(string, V)>, k: string) {
    exists i :: 0 <= i < |es| && es[i].0 == k
  }

  /** `list(d.keys())`. */
  function Keys<V>(es: seq<(string, V)>): (ks: seq<string>)
    ensures |ks| == |es| && forall i :: 0 <= i < |es| ==> ks[i] == es[i].0
  {
    seq(|es|, i requires 0 <= i < |es| => es[i].0)
  }

  /** `d.get(k)`: the value under `k`, or None when `k` is absent. */
  function Get<V>(es: seq<(string, V)>, k: string): (r: Option<V>)
    ensures r.None? <==> !HasKey(es, k)
    ensures r.Some? ==> exists i :: 0 <= i < |es| && es[i] == (k, r.value)
  {
    if es == [] then None
    else if es[0].0 == k then Some(es[0].1)
    else
      assert forall i :: 1 <= i < |es| ==> es[i] == es[1..][i - 1];
      Get(es[1..], k)
  }

  /** `d[k] = v`. */
  function Set<V>(es: seq<(string, V)>, k: string, v: V): (r: seq<(string, V)>)
    ensures HasKey(es, k) ==> |r| == |es|
    ensures !HasKey(es, k) ==> r == es + [(k, v)]
    ensures forall i :: 0 <= i < |es| ==> r[i].0 == es[i].0
  {
    if es == [] then [(k, v)]
    else if es[0].0 == k then [(k, v)] + es[1..]
    else
      assert HasKey(es, k) <==> HasKey(es[1..], k) by {
        if HasKey(es[1..], k) { var i :| 0 <= i < |es[1..]| && es[1..][i].0 == k; assert es[i + 1].0 == k; }
        if HasKey(es, k) { var i :| 0 <= i < |es| && es[i].0 == k; assert es[1..][i - 1].0 == k; }
      }
      [es[0]] + Set(es[1..], k, v)
  }

  lemma DistinctTail<V>(es: seq<(string, V)>)
    requires es != [] && DistinctKeys(es)
    ensures DistinctKeys(es[1..]) && !HasKey(es[1..], es[0].0)
  {
    forall a, b | 0 <= a < b < |es| - 1 ensures es[1..][a].0 != es[1..][b].0 {
      assert es[1..][a] == es[a + 1] && es[1..][b] == es[b + 1];
    }
    forall i | 0 <= i < |es| - 1 ensures es[1..][i].0 != es[0].0 {
      assert es[1..][i] == es[i + 1];
    }
  }

  /** After `d[k] = v`, `d.get(k)` is `v`. */
  lemma {:induction false} GetSetSame<V>(es: seq<(string, V)>, k: string, v: V)
    ensures Get(Set(es, k, v), k) == Some(v)
  {
    if es != [] && es[0].0 != k {
      GetSetSame(es[1..], k, v);
    }
  }

  /** `d[k] = v` leaves every other key's value alone. */
  lemma {:induction false} GetSetOther<V>(es: seq<(string, V)>, k: string, v: V, k2: string)
    requires k2 != k
    ensures Get(Set(es, k, v), k2) == Get(es, k2)
  {
    if es != [] && es[0].0 != k {
      GetSetOther(es[1..], k, v, k2);
    }
  }

  /** `d[k] = v` keeps the keys distinct. */
  lemma {:induction false} SetDistinct<V>(es: seq<(string, V)>, k: string, v: V)
    requires DistinctKeys(es)
    ensures DistinctKeys(Set(es, k, v))
  {
    if es != [] {
      DistinctTail(es);
      var r := Set(es, k, v);
      if es[0].0 != k {
        SetDistinct(es[1..], k, v);
        var t := Set(es[1..], k, v);
        assert r == [es[0]] + t;
        forall j | 0 <= j < |t| ensures t[j].0 != es[0].0 {
          if !HasKey(es[1..], k) {
            if j == |t| - 1 { assert t[j].0 == k; } else { assert t[j].0 == es[1..][j].0; }
          } else {
            assert t[j].0 == es[1..][j].0;
          }
        }
      } else {
        forall j | 1 <= j < |r| ensures r[j].0 != r[0].0 {
          assert r[j] == es[j];
        }
      }
    }
  }

  /** In a dict with distinct keys, `get` returns the value stored at the key's
      one position. */
  lemma {:induction false} GetAt<V>(entries: seq<(string, V)>, i: nat)
    requires DistinctKeys(entries) && i < |entries|
    ensures Get(entries, entries[i].0) == Some(entries[i].1)
  {
    if i > 0 {
      DistinctTail(entries);
      assert entries[i] == entries[1..][i - 1];
      GetAt(entries[1..], i - 1);
    }
  }
}
