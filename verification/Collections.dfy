/** Small facts about maps and numbers that several modules share. */
module Collections {

  function Min(a: nat, b: nat): nat {
    if a <= b then a else b
  }

  lemma SizeWithout<K, V>(m: map<K, V>, k: K)
    requires k in m
    ensures |m - {k}| == |m| - 1
  {
    assert (m - {k}).Keys == m.Keys - {k};
  }

  lemma EmptyOrHasKey<K, V>(m: map<K, V>)
    ensures m == map[] || exists k :: k in m
  {
    if !exists k :: k in m {
      assert m.Keys == {};
    }
  }
}
