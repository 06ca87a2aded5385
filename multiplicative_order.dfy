/**
 * The multiplicative order modulo `p`: its definition, and the theorem
 * that every number coprime to `p >= 2` has one below `p` (the powers
 * `g^1 .. g^p` take at most `p - 1` nonzero residues, so two of them
 * coincide, and `g` can be cancelled).
 */
module MultiplicativeOrder {
  import opened NumberTheory
  import opened Ranges

  /** `k` is the multiplicative order of `g` modulo `p`: the least positive
      exponent at which the powers of `g` return to one. */
  ghost predicate IsOrder(k: nat, g: nat, p: nat) {
    && p >= 2
    && k >= 1
    && Pow(g, k) % p == 1
    && forall j :: 1 <= j < k ==> Pow(g, j) % p != 1
  }

  // ---------------------------------------------------------------------
  // Coprime residues
  // ---------------------------------------------------------------------

  lemma GcdOneLeft(p: nat)
    ensures Gcd(1, p) == 1
  {
    GcdIsGcd(1, p);
    OneDivides(1);
    OneDivides(p);
    IsGcdUnique(Gcd(1, p), 1, 1, p);
  }

  lemma {:induction false} CoprimePow(g: nat, k: nat, p: nat)
    requires Gcd(g, p) == 1
    ensures Gcd(Pow(g, k), p) == 1
  {
    if k == 0 {
      GcdOneLeft(p);
    } else {
      CoprimePow(g, k - 1, p);
      CoprimeMul(g, Pow(g, k - 1), p);
    }
  }

  /** A number coprime to `p >= 2` is not a multiple of `p`. */
  lemma CoprimeResidue(x: nat, p: nat)
    requires p >= 2 && Gcd(x, p) == 1
    ensures x % p != 0
  {
    if x % p == 0 {
      GcdIsGcd(x, p);
      DividesRefl(p);
      assert false;
    }
  }

  lemma {:induction false} PowPositive(g: nat, k: nat)
    requires g > 0
    ensures Pow(g, k) > 0
  {
    if k > 0 {
      PowPositive(g, k - 1);
    }
  }

  /** Equal residues of two powers of a number coprime to `p` make their
      quotient a residue of one. */
  lemma CancelPowers(g: nat, i: nat, j: nat, p: nat)
    requires p >= 2 && Gcd(g, p) == 1 && i < j
    requires Pow(g, i) % p == Pow(g, j) % p
    ensures Pow(g, j - i) % p == 1
  {
    var a, b := Pow(g, i), Pow(g, j - i);
    PowAdd(g, i, j - i);
    assert Pow(g, j) == a * b;
    if g == 0 {
      GcdZeroLeft(p);
      assert false;
    }
    PowPositive(g, j - i);
    MulAtLeast(a, b);
    // p divides a * b - a == a * (b - 1), and a is coprime to p
    ModEqDivides(a, a * b, p);
    MulPred(a, b);
    CoprimePow(g, i, p);
    CoprimeCancel(a, b - 1, p);
    var k := DividesElim(p, b - 1);
    DivModUnique(b, p, k, 1);
  }

  /** Every `g` coprime to `p >= 2` has a power below `p` congruent to one. */
  lemma OrderExists(g: nat, p: nat) returns (k: nat)
    requires p >= 2 && Gcd(g, p) == 1
    ensures 1 <= k < p && Pow(g, k) % p == 1
  {
    var s := seq(p, e requires 0 <= e => Pow(g, e + 1) % p);
    forall e | 0 <= e < p
      ensures 1 <= s[e] <= p - 1
    {
      CoprimePow(g, e + 1, p);
      CoprimeResidue(Pow(g, e + 1), p);
    }
    var i, j := Pigeonhole(s, p - 1);
    CancelPowers(g, i + 1, j + 1, p);
    k := j - i;
  }
}
