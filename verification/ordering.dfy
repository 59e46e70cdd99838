/** The comparator contract shared by the tree-map and the stock
    comparison functions: a three-way comparison `cmp(lhs, rhs)` whose sign
    says lhs <, ==, > rhs. Keys that compare 0 are equivalent, which need
    not mean identical. */
module Ordering {

  /** Sign of a three-way result. */
  function Sign(x: int): (s: int)
    ensures s == -1 || s == 0 || s == 1
    ensures (s < 0 <==> x < 0) && (s == 0 <==> x == 0) && (s > 0 <==> x > 0)
  {
    if x < 0 then -1 else if x > 0 then 1 else 0
  }

  /** The laws a comparator attached to a tree-map must obey. */
  ghost predicate IsTotalOrder<K(!new)>(cmp: (K, K) -> int) {
    && (forall a :: cmp(a, a) == 0)
    && (forall a, b :: Sign(cmp(a, b)) == -Sign(cmp(b, a)))
    && (forall a, b, c :: cmp(a, b) < 0 && cmp(b, c) < 0 ==> cmp(a, c) < 0)
    && (forall a, b, c :: cmp(a, b) == 0 && cmp(b, c) == 0 ==> cmp(a, c) == 0)
  }

  /** "Less than" chains. */
  lemma LessTrans<K(!new)>(cmp: (K, K) -> int, a: K, b: K, c: K)
    requires IsTotalOrder(cmp)
    requires cmp(a, b) < 0 && cmp(b, c) < 0
    ensures cmp(a, c) < 0
  {
  }

  /** A key that is less than one key is less than everything equivalent to it. */
  lemma LessThenEquiv<K(!new)>(cmp: (K, K) -> int, a: K, b: K, c: K)
    requires IsTotalOrder(cmp)
    requires cmp(a, b) < 0 && cmp(b, c) == 0
    ensures cmp(a, c) < 0
  {
    assert Sign(cmp(c, b)) == -Sign(cmp(b, c));
    assert Sign(cmp(c, a)) == -Sign(cmp(a, c));
    assert Sign(cmp(b, a)) == -Sign(cmp(a, b));
  }

  /** Something equivalent to a key below c is itself below c. */
  lemma EquivThenLess<K(!new)>(cmp: (K, K) -> int, a: K, b: K, c: K)
    requires IsTotalOrder(cmp)
    requires cmp(a, b) == 0 && cmp(b, c) < 0
    ensures cmp(a, c) < 0
  {
    assert Sign(cmp(b, a)) == -Sign(cmp(a, b));
    assert Sign(cmp(c, a)) == -Sign(cmp(a, c));
  }

  /** Equivalence is symmetric. */
  lemma EquivSymmetric<K(!new)>(cmp: (K, K) -> int, a: K, b: K)
    requires IsTotalOrder(cmp)
    requires cmp(a, b) == 0
    ensures cmp(b, a) == 0
  {
    assert Sign(cmp(b, a)) == -Sign(cmp(a, b));
  }

  /** Less-than flips to greater-than when the arguments are swapped. */
  lemma LessFlips<K(!new)>(cmp: (K, K) -> int, a: K, b: K)
    requires IsTotalOrder(cmp)
    ensures cmp(a, b) < 0 <==> cmp(b, a) > 0
  {
    assert Sign(cmp(b, a)) == -Sign(cmp(a, b));
  }
}
