/** Sums over finite maps. */
module Sums {

  ghost function Sum(m: map<int, int>): int
    decreases |m|
  {
    if exists k :: k in m then
      var k :| k in m;
      m[k] + Sum(m - {k})
    else 0
  }

  lemma {:induction false} SumRemove(m: map<int, int>, k: int)
    requires k in m
    ensures Sum(m) == m[k] + Sum(m - {k})
    decreases |m|
  {
    var j :| j in m && Sum(m) == m[j] + Sum(m - {j});
    if j != k {
      SumRemove(m - {j}, k);
      SumRemove(m - {k}, j);
      assert (m - {j}) - {k} == (m - {k}) - {j};
    }
  }

  lemma SumAdd(m: map<int, int>, k: int, v: int)
    requires k !in m
    ensures Sum(m[k := v]) == Sum(m) + v
  {
    SumRemove(m[k := v], k);
    assert m[k := v] - {k} == m;
  }

  /** A map with fewer keys and smaller values has a smaller sum. */
  lemma {:induction false} SumMono(m: map<int, int>, n: map<int, int>)
    requires forall k :: k in n ==> 0 <= n[k]
    requires forall k :: k in m ==> k in n && m[k] <= n[k]
    ensures Sum(m) <= Sum(n)
    decreases |n|
  {
    if k :| k in n {
      SumRemove(n, k);
      if k in m {
        SumRemove(m, k);
      } else {
        assert m - {k} == m;
      }
      SumMono(m - {k}, n - {k});
    }
  }
}
