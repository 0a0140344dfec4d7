/** Sums over finite sets. */
module Sums {

  ghost function Sum<K>(keys: set<K>, f: K -> int): int {
    if keys == {} then 0
    else
      var k :| k in keys;
      f(k) + Sum(keys - {k}, f)
  }

  lemma {:induction false} SumRemove<K>(keys: set<K>, f: K -> int, k: K)
    requires k in keys
    ensures Sum(keys, f) == f(k) + Sum(keys - {k}, f)
    decreases |keys|
  {
    var j :| j in keys && Sum(keys, f) == f(j) + Sum(keys - {j}, f);
    if j != k {
      SumRemove(keys - {j}, f, k);
      SumRemove(keys - {k}, f, j);
      assert keys - {j} - {k} == keys - {k} - {j};
    }
  }

  lemma SumAdd<K>(keys: set<K>, f: K -> int, k: K)
    requires k !in keys
    ensures Sum(keys + {k}, f) == Sum(keys, f) + f(k)
  {
    SumRemove(keys + {k}, f, k);
    assert keys + {k} - {k} == keys;
  }

  lemma {:induction false} SumSame<K>(keys: set<K>, f: K -> int, g: K -> int)
    requires forall k | k in keys :: f(k) == g(k)
    ensures Sum(keys, f) == Sum(keys, g)
  {
    if keys != {} {
      var k :| k in keys;
      SumRemove(keys, f, k);
      SumRemove(keys, g, k);
      SumSame(keys - {k}, f, g);
    }
  }

  lemma {:induction false} SumSubset<K>(keys: set<K>, all: set<K>, f: K -> int)
    requires keys <= all && forall k | k in all - keys :: f(k) >= 0
    ensures Sum(keys, f) <= Sum(all, f)
    decreases |all - keys|
  {
    if all - keys != {} {
      var k :| k in all - keys;
      SumRemove(all, f, k);
      assert (all - {k}) - keys == (all - keys) - {k};
      SumSubset(keys, all - {k}, f);
    } else {
      assert keys == all;
    }
  }

  lemma {:induction false} SumPositive<K>(keys: set<K>, f: K -> int)
    requires forall k | k in keys :: f(k) >= 0
    ensures Sum(keys, f) >= 0
  {
    SumSubset({}, keys, f);
  }

  lemma {:induction false} SumUnion<K>(a: set<K>, b: set<K>, f: K -> int)
    requires a !! b
    ensures Sum(a + b, f) == Sum(a, f) + Sum(b, f)
    decreases |b|
  {
    if b == {} {
      assert a + b == a;
    } else {
      var k :| k in b;
      SumRemove(b, f, k);
      SumRemove(a + b, f, k);
      assert a + b - {k} == a + (b - {k});
      SumUnion(a, b - {k}, f);
    }
  }

  lemma {:induction false} SumZero<K>(keys: set<K>, f: K -> int)
    requires forall k | k in keys :: f(k) == 0
    ensures Sum(keys, f) == 0
  {
    if keys != {} {
      var k :| k in keys;
      SumRemove(keys, f, k);
      SumZero(keys - {k}, f);
    }
  }
}
