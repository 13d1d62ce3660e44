/** Sums over finite maps. */
module Totals {

  ghost function Sum<K>(m: map<K, nat>): nat
    decreases |m|
  {
    if m == map[] then 0
    else
      var k :| k in m;
      assert |m - {k}| < |m| by { Shrinks(m, k); }
      m[k] + Sum(m - {k})
  }

  lemma Shrinks<K, V>(m: map<K, V>, k: K)
    requires k in m
    ensures |m - {k}| == |m| - 1
  {
    assert (m - {k}).Keys == m.Keys - {k};
    assert |m| == |m.Keys| && |m - {k}| == |(m - {k}).Keys|;
  }

  lemma {:induction false} SumRemove<K>(m: map<K, nat>, k: K)
    requires k in m
    ensures Sum(m) == m[k] + Sum(m - {k})
    decreases |m|
  {
    var j :| j in m && Sum(m) == m[j] + Sum(m - {j});
    if j != k {
      Shrinks(m, j);
      Shrinks(m, k);
      SumRemove(m - {j}, k);
      SumRemove(m - {k}, j);
      assert m - {j} - {k} == m - {k} - {j};
    }
  }

  ghost function Image<K, V>(m: map<K, V>, f: V -> nat): map<K, nat> {
    map k | k in m :: f(m[k])
  }

  /** The sum of `f` over the values of a map. */
  ghost function Total<K, V>(m: map<K, V>, f: V -> nat): nat {
    Sum(Image(m, f))
  }

  lemma TotalDrop<K, V>(m: map<K, V>, k: K, f: V -> nat)
    requires k in m
    ensures Total(m, f) == f(m[k]) + Total(m - {k}, f)
  {
    SumRemove(Image(m, f), k);
    assert Image(m, f) - {k} == Image(m - {k}, f);
  }

  lemma TotalAdd<K, V>(m: map<K, V>, k: K, v: V, f: V -> nat)
    requires k !in m
    ensures Total(m[k := v], f) == Total(m, f) + f(v)
  {
    TotalDrop(m[k := v], k, f);
    assert m[k := v] - {k} == m;
  }

  lemma TotalSet<K, V>(m: map<K, V>, k: K, v: V, f: V -> nat)
    requires k in m
    ensures Total(m[k := v], f) == Total(m, f) - f(m[k]) + f(v)
  {
    TotalDrop(m, k, f);
    TotalDrop(m[k := v], k, f);
    assert m[k := v] - {k} == m - {k};
  }

  lemma TotalZero<K, V>(m: map<K, V>, f: V -> nat)
    requires forall k :: k in m ==> f(m[k]) == 0
    ensures Total(m, f) == 0
    decreases |m|
  {
    if k :| k in m {
      Shrinks(m, k);
      TotalDrop(m, k, f);
      TotalZero(m - {k}, f);
    } else {
      assert Image(m, f) == map[];
    }
  }

  ghost function Only<K, V>(m: map<K, V>, s: set<K>): map<K, V> {
    map k | k in m && k in s :: m[k]
  }

  lemma {:induction false} TotalSplit<K, V>(m: map<K, V>, s: set<K>, f: V -> nat)
    ensures Total(m, f) == Total(m - s, f) + Total(Only(m, s), f)
    decreases |s|
  {
    if k :| k in s {
      var s' := s - {k};
      TotalSplit(m, s', f);
      if k in m {
        TotalDrop(m - s', k, f);
        assert m - s' - {k} == m - s;
        TotalDrop(Only(m, s), k, f);
        assert Only(m, s) - {k} == Only(m, s');
      } else {
        assert m - s' == m - s && Only(m, s') == Only(m, s);
      }
    } else {
      assert m - s == m;
      TotalZero(Only(m, s), f);
    }
  }
}
