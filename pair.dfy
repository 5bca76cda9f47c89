/** Pair<T, U>: an immutable two-component value, used for every
    (index, item) entry of the grouper and for each matched bucket pair.
    `First` and `Second` are fixed when the value is built. Component
    equality and hashing (EqualityComparer<T>.Default) are parameters. */
module Pairs {

  import opened Wrappers
  import opened HashCodeUtil

  datatype Pair<T, U> = Pair(First: T, Second: U)

  /** The argument of Equals(object): a null reference, a Pair<T, U>, or an
      object whose runtime type is not Pair<T, U>. */
  datatype Obj<T, U> = NullRef | PairRef(pair: Pair<T, U>) | OtherType

  /** Component-wise comparison (the private IsEqual): the pairs agree
      exactly when both components agree. */
  predicate IsEqual<T, U>(p: Pair<T, U>, other: Pair<T, U>, eqT: (T, T) -> bool, eqU: (U, U) -> bool)
    ensures IsEqual(p, other, eqT, eqU) ==> eqT(p.First, other.First) && eqU(p.Second, other.Second)
    ensures eqT(p.First, other.First) && eqU(p.Second, other.Second) ==> IsEqual(p, other, eqT, eqU)
  {
    eqT(p.First, other.First) && eqU(p.Second, other.Second)
  }

  /** Equals(Pair<T, U> other). The reference-identity short-cut is value
      identity here: null is never equal, the pair itself always is, any
      other pair is compared component-wise. */
  predicate EqualsPair<T(==), U(==)>(p: Pair<T, U>, other: Option<Pair<T, U>>, eqT: (T, T) -> bool, eqU: (U, U) -> bool)
    ensures other.None? ==> !EqualsPair(p, other, eqT, eqU)
    ensures other == Some(p) ==> EqualsPair(p, other, eqT, eqU)
    ensures other.Some? && other.value != p ==> (EqualsPair(p, other, eqT, eqU) <==> IsEqual(p, other.value, eqT, eqU))
  {
    match other
    case None => false
    case Some(q) => q == p || IsEqual(p, q, eqT, eqU)
  }

  /** Equals(object obj): null and objects of another runtime type are
      never equal; a Pair<T, U> gets the same answer as Equals(Pair<T, U>). */
  predicate EqualsObject<T(==), U(==)>(p: Pair<T, U>, obj: Obj<T, U>, eqT: (T, T) -> bool, eqU: (U, U) -> bool)
    ensures !obj.PairRef? ==> !EqualsObject(p, obj, eqT, eqU)
    ensures obj.PairRef? ==> (EqualsObject(p, obj, eqT, eqU) <==> EqualsPair(p, Some(obj.pair), eqT, eqU))
  {
    match obj
    case NullRef => false
    case OtherType => false
    case PairRef(q) => q == p || IsEqual(p, q, eqT, eqU)
  }

  /** GetHashCode(): HashCodeUtil.HashCode(First, Second), i.e. the fold
      over the two component hashes (HashCode2 computes the same value).
      In closed form it is (17 * 29 + h1) * 29 + h2 reduced to 32 bits. */
  function GetHashCode<T, U>(p: Pair<T, U>, hashT: T -> int32, hashU: U -> int32): (r: int32)
    ensures r == Wrap(17 * 29 * 29 + hashT(p.First) as int * 29 + hashU(p.Second) as int)
  {
    var hs := [hashT(p.First), hashU(p.Second)];
    assert hs[..1] == [hs[0]] && [hs[0]][..0] == [];
    assert Fold(hs) == Step(Fold([hs[0]]), hs[1]);
    assert Fold([hs[0]]) == Wrap(17 * 29 + hs[0] as int);
    WrapStep(17 * 29 + hs[0] as int, hs[1]);
    Fold(hs)
  }

  ghost predicate Reflexive<X(!new)>(eq: (X, X) -> bool)
  {
    forall x :: eq(x, x)
  }

  /** A hash is consistent with an equality when equal values hash alike. */
  ghost predicate HashConsistent<X(!new)>(eq: (X, X) -> bool, hash: X -> int32)
  {
    forall x, y :: eq(x, y) ==> hash(x) == hash(y)
  }

  /** Null and foreign objects are never equal; a pair always equals itself,
      whatever the component equalities are (the identity short-cut). */
  lemma EqualsEdgeCases<T, U>(p: Pair<T, U>, eqT: (T, T) -> bool, eqU: (U, U) -> bool)
    ensures !EqualsObject(p, NullRef, eqT, eqU) && !EqualsObject(p, OtherType, eqT, eqU)
    ensures !EqualsPair(p, None, eqT, eqU)
    ensures EqualsObject(p, PairRef(p), eqT, eqU) && EqualsPair(p, Some(p), eqT, eqU)
  {
  }

  /** With reflexive component equalities (as EqualityComparer<T>.Default
      is), two pairs are equal exactly when both components are equal, and
      the two Equals overloads agree. */
  lemma EqualsIffComponents<T(!new), U(!new)>(p: Pair<T, U>, q: Pair<T, U>, eqT: (T, T) -> bool, eqU: (U, U) -> bool)
    requires Reflexive(eqT) && Reflexive(eqU)
    ensures EqualsObject(p, PairRef(q), eqT, eqU) <==> eqT(p.First, q.First) && eqU(p.Second, q.Second)
    ensures EqualsPair(p, Some(q), eqT, eqU) == EqualsObject(p, PairRef(q), eqT, eqU)
  {
  }

  ghost predicate Symmetric<X(!new)>(eq: (X, X) -> bool)
  {
    forall x, y :: eq(x, y) == eq(y, x)
  }

  /** Equals is symmetric when the component equalities are. */
  lemma EqualsSymmetric<T(!new), U(!new)>(p: Pair<T, U>, q: Pair<T, U>, eqT: (T, T) -> bool, eqU: (U, U) -> bool)
    requires Symmetric(eqT) && Symmetric(eqU)
    ensures EqualsPair(p, Some(q), eqT, eqU) == EqualsPair(q, Some(p), eqT, eqU)
    ensures EqualsObject(p, PairRef(q), eqT, eqU) == EqualsObject(q, PairRef(p), eqT, eqU)
  {
  }

  /** Equal pairs have equal hash codes when the component hashes are
      consistent with the component equalities. */
  lemma EqualPairsHashAlike<T(!new), U(!new)>(p: Pair<T, U>, q: Pair<T, U>, eqT: (T, T) -> bool, eqU: (U, U) -> bool,
                                        hashT: T -> int32, hashU: U -> int32)
    requires HashConsistent(eqT, hashT) && HashConsistent(eqU, hashU)
    requires EqualsPair(p, Some(q), eqT, eqU)
    ensures GetHashCode(p, hashT, hashU) == GetHashCode(q, hashT, hashU)
  {
  }
}
