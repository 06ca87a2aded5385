/**
 * The two-element field GF(2) as a one-bit value: addition is exclusive
 * or, multiplication is conjunction, every element is its own additive
 * inverse and the multiplicative inverse is negation. The field laws the
 * type is declared to satisfy are proved as lemmas, case by case, and
 * each operation is tied to arithmetic modulo two. Negation is not the
 * inverse of one, so the inverse law fails as written; a corrected
 * inverse is given beside it.
 */
module Gf2 {

  datatype GF2 = GF2(b: bool)

  /** The residue modulo two an element stands for. */
  function ToNat(a: GF2): (n: nat)
    ensures n < 2
    ensures a == GF2(n == 1)
  {
    if a.b then 1 else 0
  }

  /** The additive identity, `0`. */
  function AdditiveIdentity(): (z: GF2)
    ensures ToNat(z) == 0
  {
    GF2(false)
  }

  /** The multiplicative identity, `1`. */
  function MultiplicativeIdentity(): (o: GF2)
    ensures ToNat(o) == 1
  {
    GF2(true)
  }

  /** Addition: exclusive or of the bits, which is addition modulo two. */
  function Add(a: GF2, c: GF2): (r: GF2)
    ensures ToNat(r) == (ToNat(a) + ToNat(c)) % 2
  {
    GF2(a.b != c.b)
  }

  /** Multiplication: conjunction of the bits, which is multiplication
      modulo two. */
  function Mul(a: GF2, c: GF2): (r: GF2)
    ensures ToNat(r) == (ToNat(a) * ToNat(c)) % 2
  {
    GF2(a.b && c.b)
  }

  /** The additive inverse: every element is its own negative. */
  function AdditiveInverse(a: GF2): (r: GF2)
    ensures Add(a, r) == AdditiveIdentity()
    ensures Add(r, a) == AdditiveIdentity()
    ensures ToNat(r) == (2 - ToNat(a)) % 2
  {
    a
  }

  /** The multiplicative inverse as written: negation of the bit. It maps
      zero to one, where no inverse exists, and one to zero, which is not
      the inverse of one. */
  function MultiplicativeInverse(a: GF2): (r: GF2)
    ensures r != a
    ensures ToNat(r) == 1 - ToNat(a)
  {
    GF2(!a.b)
  }

  /** The multiplicative inverse a field needs: one is its own inverse.
      At zero, which has no inverse, it agrees with
      `MultiplicativeInverse`. */
  function CorrectedMultiplicativeInverse(a: GF2): (r: GF2)
    ensures a != AdditiveIdentity() ==> Mul(a, r) == MultiplicativeIdentity()
    ensures a != AdditiveIdentity() ==> Mul(r, a) == MultiplicativeIdentity()
    ensures a == AdditiveIdentity() ==> r == MultiplicativeInverse(a)
  {
    MultiplicativeIdentity()
  }

  // ---------------------------------------------------------------------
  // Identities
  // ---------------------------------------------------------------------

  lemma AdditiveIdentityLaw(a: GF2)
    ensures Add(AdditiveIdentity(), a) == a
    ensures Add(a, AdditiveIdentity()) == a
  {
  }

  lemma MultiplicativeIdentityLaw(a: GF2)
    ensures Mul(MultiplicativeIdentity(), a) == a
    ensures Mul(a, MultiplicativeIdentity()) == a
  {
  }

  /** The two identities differ, as a field requires. */
  lemma IdentitiesDistinct()
    ensures AdditiveIdentity() != MultiplicativeIdentity()
  {
  }

  // ---------------------------------------------------------------------
  // The additive group
  // ---------------------------------------------------------------------

  lemma AddCommutative(a: GF2, c: GF2)
    ensures Add(a, c) == Add(c, a)
  {
  }

  lemma AddAssociative(a: GF2, c: GF2, d: GF2)
    ensures Add(Add(a, c), d) == Add(a, Add(c, d))
  {
  }

  /** The case the test in `src/gf2.rs` checks: `0 + 1 == 1`. */
  lemma AddZeroOne()
    ensures Add(AdditiveIdentity(), MultiplicativeIdentity()) == MultiplicativeIdentity()
  {
  }

  /** The additive inverse is the element itself, and it is the only
      element that cancels `a`. */
  lemma AdditiveInverseUnique(a: GF2, c: GF2)
    ensures AdditiveInverse(a) == a
    ensures Add(a, c) == AdditiveIdentity() <==> c == AdditiveInverse(a)
  {
  }

  // ---------------------------------------------------------------------
  // The multiplicative monoid
  // ---------------------------------------------------------------------

  lemma MulCommutative(a: GF2, c: GF2)
    ensures Mul(a, c) == Mul(c, a)
  {
  }

  lemma MulAssociative(a: GF2, c: GF2, d: GF2)
    ensures Mul(Mul(a, c), d) == Mul(a, Mul(c, d))
  {
  }

  /** Zero absorbs. */
  lemma MulZero(a: GF2)
    ensures Mul(AdditiveIdentity(), a) == AdditiveIdentity()
    ensures Mul(a, AdditiveIdentity()) == AdditiveIdentity()
  {
  }

  /** Negation does not invert the one nonzero element: `inv(1)` is `0`,
      so `1 * inv(1)` is `0`, not `1`. */
  lemma MultiplicativeInverseOfOne()
    ensures MultiplicativeInverse(MultiplicativeIdentity()) == AdditiveIdentity()
    ensures Mul(MultiplicativeIdentity(), MultiplicativeInverse(MultiplicativeIdentity()))
            != MultiplicativeIdentity()
  {
  }

  /** `inv(0)` is `1`, which is no inverse: `0 * inv(0)` is `0`, not `1`. */
  lemma MultiplicativeInverseOfZero()
    ensures MultiplicativeInverse(AdditiveIdentity()) == MultiplicativeIdentity()
    ensures Mul(AdditiveIdentity(), MultiplicativeInverse(AdditiveIdentity()))
            != MultiplicativeIdentity()
  {
  }

  /** Negation undoes itself. */
  lemma MultiplicativeInverseInvolution(a: GF2)
    ensures MultiplicativeInverse(MultiplicativeInverse(a)) == a
  {
  }

  /** The corrected inverse is the only element that inverts a nonzero
      element. */
  lemma CorrectedInverseUnique(a: GF2, c: GF2)
    requires a != AdditiveIdentity()
    ensures Mul(a, c) == MultiplicativeIdentity() <==> c == CorrectedMultiplicativeInverse(a)
  {
  }

  /** Zero has no multiplicative inverse at all. */
  lemma ZeroNotInvertible(c: GF2)
    ensures Mul(AdditiveIdentity(), c) != MultiplicativeIdentity()
  {
  }

  // ---------------------------------------------------------------------
  // Distributivity
  // ---------------------------------------------------------------------

  lemma MulDistributesLeft(a: GF2, c: GF2, d: GF2)
    ensures Mul(a, Add(c, d)) == Add(Mul(a, c), Mul(a, d))
  {
  }

  lemma MulDistributesRight(a: GF2, c: GF2, d: GF2)
    ensures Mul(Add(c, d), a) == Add(Mul(c, a), Mul(d, a))
  {
  }

  // ---------------------------------------------------------------------
  // Equality and the derived order
  // ---------------------------------------------------------------------

  /** The derived order compares the bits, `false` before `true`. */
  predicate Less(a: GF2, c: GF2): (r: bool)
    ensures r <==> ToNat(a) < ToNat(c)
  {
    !a.b && c.b
  }

  /** Equality is equality of the bit, and the residue determines the
      element. */
  lemma EqualityIsBit(a: GF2, c: GF2)
    ensures a == c <==> a.b == c.b
    ensures a == c <==> ToNat(a) == ToNat(c)
  {
  }

  /** The order is strict and total, agrees with the residues, and puts
      `0 < 1`. */
  lemma LessIsStrictTotalOrder(a: GF2, c: GF2, d: GF2)
    ensures !Less(a, a)
    ensures Less(a, c) ==> !Less(c, a)
    ensures Less(a, c) && Less(c, d) ==> Less(a, d)
    ensures a == c || Less(a, c) || Less(c, a)
    ensures Less(a, c) <==> ToNat(a) < ToNat(c)
    ensures Less(AdditiveIdentity(), MultiplicativeIdentity())
  {
  }
}
