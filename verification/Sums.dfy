/** Sums over finite sets, in no particular order. */
module Sums {

  ghost function Sum<K(!new)>(keys: set<K>, f: K -> int): int {
    if keys == {} then 0 else var k :| k in keys; f(k) + Sum(keys - {k}, f)
  }

  /** The sum does not depend on which key is taken first. */
  lemma {:induction false} SumRemove<K(!new)>(keys: set<K>, f: K -> int, k: K)
    requires k in keys
    ensures Sum(keys, f) == f(k) + Sum(keys - {k}, f)
    decreases |keys|
  {
    var first :| first in keys && Sum(keys, f) == f(first) + Sum(keys - {first}, f);
    if first != k {
      SumRemove(keys - {first}, f, k);
      SumRemove(keys - {k}, f, first);
      assert keys - {first} - {k} == keys - {k} - {first};
    }
  }

  lemma SumInsert<K(!new)>(keys: set<K>, f: K -> int, k: K)
    requires k !in keys
    ensures Sum(keys + {k}, f) == Sum(keys, f) + f(k)
  {
    SumRemove(keys + {k}, f, k);
    assert keys + {k} - {k} == keys;
  }

  lemma SumOne<K(!new)>(k: K, f: K -> int)
    ensures Sum({k}, f) == f(k)
  {
    SumInsert({}, f, k);
    assert {} + {k} == {k};
  }

  lemma {:induction false} SumZero<K(!new)>(keys: set<K>, f: K -> int)
    requires forall k | k in keys :: f(k) == 0
    ensures Sum(keys, f) == 0
    decreases |keys|
  {
    if keys != {} {
      var k :| k in keys;
      SumRemove(keys, f, k);
      SumZero(keys - {k}, f);
    }
  }

  /** Keys worth nothing may be left out. */
  lemma {:induction false} SumSupport<K(!new)>(keys: set<K>, support: set<K>, f: K -> int)
    requires support <= keys && forall k | k in keys - support :: f(k) == 0
    ensures Sum(keys, f) == Sum(support, f)
    decreases |keys|
  {
    if k :| k in keys && k !in support {
      SumRemove(keys, f, k);
      SumSupport(keys - {k}, support, f);
    } else {
      assert keys == support;
    }
  }

  lemma {:induction false} SumDifference<K(!new)>(keys: set<K>, f: K -> int, g: K -> int, h: K -> int)
    requires forall k | k in keys :: h(k) == f(k) - g(k)
    ensures Sum(keys, h) == Sum(keys, f) - Sum(keys, g)
    decreases |keys|
  {
    if keys != {} {
      var k :| k in keys;
      SumRemove(keys, f, k);
      SumRemove(keys, g, k);
      SumRemove(keys, h, k);
      SumDifference(keys - {k}, f, g, h);
    }
  }

  /** A pointwise larger function has the larger sum, and the same sum only when
      it is the same function. */
  lemma {:induction false} SumAtLeast<K(!new)>(keys: set<K>, f: K -> int, g: K -> int)
    requires forall k | k in keys :: f(k) >= g(k)
    ensures Sum(keys, f) >= Sum(keys, g)
    ensures Sum(keys, f) == Sum(keys, g) <==> forall k | k in keys :: f(k) == g(k)
    decreases |keys|
  {
    if keys != {} {
      var k :| k in keys;
      SumRemove(keys, f, k);
      SumRemove(keys, g, k);
      SumAtLeast(keys - {k}, f, g);
      assert keys == keys - {k} + {k};
    }
  }

  /** Raising one key by one raises the sum by one. */
  lemma SumBumped<K(!new)>(keys: set<K>, f: K -> int, g: K -> int, key: K)
    requires key in keys && g(key) == f(key) + 1
    requires forall k | k in keys - {key} :: g(k) == f(k)
    ensures Sum(keys, g) == Sum(keys, f) + 1
  {
    SumRemove(keys, f, key);
    SumRemove(keys, g, key);
    SumAtLeast(keys - {key}, f, g);
  }

  // ---- Counting over a range --------------------------------------------------------------

  function CountIn(from: nat, to: nat, p: nat -> bool): nat {
    if to <= from then 0 else CountIn(from, to - 1, p) + if p(to - 1) then 1 else 0
  }

  /** The count is the size of the set of those that satisfy the predicate. */
  lemma {:induction false} CountIsSize(from: nat, to: nat, p: nat -> bool) returns (those: set<nat>)
    ensures |those| == CountIn(from, to, p)
    ensures forall t: nat :: t in those <==> from <= t < to && p(t)
  {
    if to <= from {
      those := {};
    } else {
      var before := CountIsSize(from, to - 1, p);
      those := if p(to - 1) then before + {to - 1} else before;
    }
  }
}
