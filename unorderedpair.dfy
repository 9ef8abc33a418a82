/**
 * `UnorderedPair<T>`: two non-null elements whose order does not matter for
 * equality or hashing.  A C# reference that may be null is an `Option`; the
 * elements' own `Equals` is value equality and their `GetHashCode` is a
 * parameter.
 */
module UnorderedPairs {
  import opened Wrappers

  datatype UnorderedPair<T> = UnorderedPair(A: T, B: T)

  /** `new UnorderedPair<T>(a, b)`: a null element throws. */
  function New<T>(a: Option<T>, b: Option<T>): (r: Result<UnorderedPair<T>>)
    ensures r.Failure? <==> a.None? || b.None?
    ensures r.Failure? ==> r.error == NullReferenceException
    ensures r.Success? ==> r.value.A == a.value && r.value.B == b.value
  {
    if a.None? || b.None? then Failure(NullReferenceException)
    else Success(UnorderedPair(a.value, b.value))
  }

  /** `Equals(obj)`: obj is a pair (`None` stands for null or any other type)
   *  holding the same elements in either order. */
  predicate Equals<T(==)>(p: UnorderedPair<T>, obj: Option<UnorderedPair<T>>)
  {
    match obj
    case None => false
    case Some(q) => (q.A == p.A && q.B == p.B) || (q.B == p.A && q.A == p.B)
  }

  /** Two pairs are equal exactly when they hold the same elements, counted with
   *  multiplicity. */
  lemma EqualsMeansSameElements<T>(p: UnorderedPair<T>, q: UnorderedPair<T>)
    ensures Equals(p, Some(q)) <==> multiset{p.A, p.B} == multiset{q.A, q.B}
  {
    if multiset{p.A, p.B} == multiset{q.A, q.B} {
      assert q.A in multiset{p.A, p.B};
      if q.A == p.A {
        assert multiset{q.B} == multiset{p.A, p.B} - multiset{p.A};
      } else {
        assert multiset{q.B} == multiset{p.A, p.B} - multiset{p.B};
      }
    }
  }

  /** `Equals` is an equivalence on pairs, and a pair differs from null. */
  lemma EqualsIsEquivalence<T>(p: UnorderedPair<T>, q: UnorderedPair<T>, s: UnorderedPair<T>)
    ensures Equals(p, Some(p))
    ensures Equals(p, Some(q)) <==> Equals(q, Some(p))
    ensures Equals(p, Some(q)) && Equals(q, Some(s)) ==> Equals(p, Some(s))
    ensures !Equals(p, None)
  {
  }

  /** `GetHashCode()`: the elements' hash codes combined with XOR. */
  function GetHashCode<T>(p: UnorderedPair<T>, hash: T -> bv32): bv32
  {
    hash(p.A) ^ hash(p.B)
  }

  /** Equal pairs have equal hash codes. */
  lemma EqualPairsHashEqual<T>(p: UnorderedPair<T>, q: UnorderedPair<T>, hash: T -> bv32)
    requires Equals(p, Some(q))
    ensures GetHashCode(p, hash) == GetHashCode(q, hash)
  {
    if q.A != p.A || q.B != p.B {
      XorCommutes(hash(p.A), hash(p.B));
    }
  }

  lemma XorCommutes(x: bv32, y: bv32)
    ensures x ^ y == y ^ x
  {
  }
}
