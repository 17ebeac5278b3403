/** Sums over finite sets of keys. */
module Sums {

  ghost function Sum<K(!new)>(ks: set<K>, f: K -> nat): nat {
    if ks == {} then 0
    else
      var k :| k in ks;
      f(k) + Sum(ks - {k}, f)
  }

  /** Any member can be split off. */
  lemma {:induction false} SumSplit<K(!new)>(ks: set<K>, f: K -> nat, k: K)
    requires k in ks
    ensures Sum(ks, f) == f(k) + Sum(ks - {k}, f)
    decreases |ks|
  {
    var j :| j in ks && Sum(ks, f) == f(j) + Sum(ks - {j}, f);
    if j != k {
      SumSplit(ks - {j}, f, k);
      SumSplit(ks - {k}, f, j);
      assert ks - {j} - {k} == ks - {k} - {j};
    }
  }

  lemma SumAdd<K(!new)>(ks: set<K>, f: K -> nat, k: K)
    requires k !in ks
    ensures Sum(ks + {k}, f) == f(k) + Sum(ks, f)
  {
    SumSplit(ks + {k}, f, k);
    assert ks + {k} - {k} == ks;
  }

  /** Functions that agree on the keys have the same sum. */
  lemma {:induction false} SumSame<K(!new)>(ks: set<K>, f: K -> nat, g: K -> nat)
    requires forall k | k in ks :: f(k) == g(k)
    ensures Sum(ks, f) == Sum(ks, g)
    decreases |ks|
  {
    if ks != {} {
      var k :| k in ks;
      SumSplit(ks, f, k);
      SumSplit(ks, g, k);
      SumSame(ks - {k}, f, g);
    }
  }
}
