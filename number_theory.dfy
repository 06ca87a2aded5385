/**
 * Mathematical reference definitions for the number-theory toolkit:
 * divisibility, the greatest common divisor (defined by Euclid's
 * recursion and characterised as the greatest common divisor),
 * primality and natural-number powers, with the facts about them that
 * the toolkit's algorithms rely on.
 */
module NumberTheory {

  // ---------------------------------------------------------------------
  // Divisibility
  // ---------------------------------------------------------------------

  /** `d` divides `n`; zero divides only zero. */
  predicate Divides(d: nat, n: nat) {
    if d == 0 then n == 0 else n % d == 0
  }

  /** Euclidean division of `n` by a positive `d`, written out. */
  lemma DivMod(n: nat, d: nat)
    requires d > 0
    ensures n == d * (n / d) + n % d && 0 <= n % d < d
  {
  }

  /** Division by `d` is unique: quotient and remainder determine each other. */
  lemma DivModUnique(n: nat, d: nat, q: nat, r: nat)
    requires d > 0 && r < d && n == d * q + r
    ensures n / d == q && n % d == r
  {
    DivMod(n, d);
    var q', r' := n / d, n % d;
    if q' < q {
      MulAtLeast(d, q - q');
    } else if q' > q {
      MulAtLeast(d, q' - q);
    }
  }

  /** A positive multiple of `d` is at least `d`. */
  lemma MulAtLeast(d: nat, t: nat)
    requires t >= 1
    ensures d * t >= d
  {
    assert d * t == d * (t - 1) + d;
    assert d * (t - 1) >= 0;
  }

  /** Two numbers with equal remainders differ by a multiple. */
  lemma ModEqDivides(x: nat, y: nat, d: nat)
    requires d > 0 && x <= y && x % d == y % d
    ensures Divides(d, y - x)
  {
    DivMod(x, d);
    DivMod(y, d);
    var qx, qy := x / d, y / d;
    assert y - x == d * qy - d * qx;
    if qy >= qx {
      assert d * qy - d * qx == d * (qy - qx);
      DividesIntro(d, y - x, qy - qx);
    } else {
      MulAtLeast(d, qx - qy);
      assert false;
    }
  }

  lemma MulPred(a: nat, b: nat)
    requires b >= 1
    ensures a * (b - 1) == a * b - a
  {
  }

  lemma DividesIntro(d: nat, n: nat, k: nat)
    requires n == d * k
    ensures Divides(d, n)
  {
    if d > 0 {
      DivModUnique(n, d, k, 0);
    }
  }

  /** The cofactor of a divisor. */
  lemma DividesElim(d: nat, n: nat) returns (k: nat)
    requires Divides(d, n)
    ensures n == d * k
  {
    if d == 0 {
      k := 0;
    } else {
      DivMod(n, d);
      k := n / d;
    }
  }

  lemma DividesRefl(n: nat)
    ensures Divides(n, n)
  {
    DividesIntro(n, n, 1);
  }

  lemma DividesZero(d: nat)
    ensures Divides(d, 0)
  {
    DividesIntro(d, 0, 0);
  }

  lemma OneDivides(n: nat)
    ensures Divides(1, n)
  {
  }

  /** A divisor of a positive number is no larger than it. */
  lemma DividesLe(d: nat, n: nat)
    requires Divides(d, n) && n > 0
    ensures 1 <= d <= n
  {
    var k := DividesElim(d, n);
    MulAtLeast(d, k);
  }

  lemma DividesAntisym(a: nat, b: nat)
    requires Divides(a, b) && Divides(b, a)
    ensures a == b
  {
    if a > 0 && b > 0 {
      DividesLe(a, b);
      DividesLe(b, a);
    }
  }

  lemma DividesTrans(a: nat, b: nat, c: nat)
    requires Divides(a, b) && Divides(b, c)
    ensures Divides(a, c)
  {
    var k := DividesElim(a, b);
    var j := DividesElim(b, c);
    assert c == a * (k * j);
    DividesIntro(a, c, k * j);
  }

  lemma DividesAdd(d: nat, a: nat, b: nat)
    requires Divides(d, a) && Divides(d, b)
    ensures Divides(d, a + b)
  {
    var ka := DividesElim(d, a);
    var kb := DividesElim(d, b);
    assert a + b == d * (ka + kb);
    DividesIntro(d, a + b, ka + kb);
  }

  lemma DividesSub(d: nat, a: nat, b: nat)
    requires b <= a && Divides(d, a) && Divides(d, b)
    ensures Divides(d, a - b)
  {
    var ka := DividesElim(d, a);
    var kb := DividesElim(d, b);
    if d > 0 {
      if ka < kb {
        MulAtLeast(d, kb - ka);
      }
      assert a - b == d * (ka - kb);
      DividesIntro(d, a - b, ka - kb);
    }
  }

  lemma DividesMul(d: nat, a: nat, c: nat)
    requires Divides(d, a)
    ensures Divides(d, a * c)
  {
    var k := DividesElim(d, a);
    assert a * c == d * (k * c);
    DividesIntro(d, a * c, k * c);
  }

  lemma OddTimesOdd(x: nat, y: nat)
    requires x % 2 == 1 && y % 2 == 1
    ensures (x * y) % 2 == 1
  {
    var i, j := x / 2, y / 2;
    assert x * y == 2 * (2 * i * j + i + j) + 1;
    DivModUnique(x * y, 2, 2 * i * j + i + j, 1);
  }

  lemma EvenTimes(x: nat, y: nat)
    requires x % 2 == 0
    ensures (x * y) % 2 == 0
  {
    var i := x / 2;
    assert x * y == 2 * (i * y);
    DivModUnique(x * y, 2, i * y, 0);
  }

  /** An odd divisor of `2 * a` divides `a`. */
  lemma OddDividesDouble(d: nat, a: nat)
    requires d % 2 == 1 && Divides(d, 2 * a)
    ensures Divides(d, a)
  {
    var k := DividesElim(d, 2 * a);
    var i := d / 2;
    assert d == 2 * i + 1;
    if k % 2 == 1 {
      OddTimesOdd(d, k);
      assert false;
    } else {
      var j := k / 2;
      assert k == 2 * j;
      assert 2 * a == 2 * (d * j);
      DividesIntro(d, a, j);
    }
  }

  /** Every divisor of an odd number is odd. */
  lemma DivisorOfOddIsOdd(d: nat, a: nat)
    requires a % 2 == 1 && Divides(d, a)
    ensures d % 2 == 1
  {
    var k := DividesElim(d, a);
    if d % 2 == 0 {
      EvenTimes(d, k);
      assert false;
    }
  }

  /** A common divisor of `x` and `p` divides the remainder of `x` by `p`. */
  lemma DividesResidue(d: nat, x: nat, p: nat)
    requires p > 0 && Divides(d, x) && Divides(d, p)
    ensures Divides(d, x % p)
  {
    DivMod(x, p);
    var q := x / p;
    DividesMul(d, p, q);
    DividesSub(d, x, p * q);
  }

  // ---------------------------------------------------------------------
  // Greatest common divisor
  // ---------------------------------------------------------------------

  /** `g` is a greatest common divisor of `a` and `b`: a common divisor
      that every common divisor divides. */
  ghost predicate IsGcd(g: nat, a: nat, b: nat) {
    && Divides(g, a)
    && Divides(g, b)
    && forall d: nat :: Divides(d, a) && Divides(d, b) ==> Divides(d, g)
  }

  /** The reference greatest common divisor, by Euclid's recursion. */
  function Gcd(a: nat, b: nat): nat
    decreases b
  {
    if b == 0 then a else Gcd(b, a % b)
  }

  lemma {:induction false} GcdIsGcd(a: nat, b: nat)
    ensures IsGcd(Gcd(a, b), a, b)
    decreases b
  {
    if b == 0 {
      DividesRefl(a);
      DividesZero(a);
    } else {
      var r := a % b;
      var q := a / b;
      DivMod(a, b);
      GcdIsGcd(b, r);
      var g := Gcd(b, r);
      // g divides b and r, hence b * q + r
      DividesMul(g, b, q);
      assert b * q == q * b;
      DividesAdd(g, b * q, r);
      forall d: nat | Divides(d, a) && Divides(d, b)
        ensures Divides(d, g)
      {
        DividesMul(d, b, q);
        DividesSub(d, a, b * q);
      }
    }
  }

  lemma IsGcdUnique(g: nat, h: nat, a: nat, b: nat)
    requires IsGcd(g, a, b) && IsGcd(h, a, b)
    ensures g == h
  {
    DividesAntisym(g, h);
  }

  /** Pairs with the same common divisors have the same gcd. */
  lemma GcdOfSameDivisors(a: nat, b: nat, c: nat, e: nat)
    requires forall d: nat :: Divides(d, a) && Divides(d, b) <==> Divides(d, c) && Divides(d, e)
    ensures Gcd(a, b) == Gcd(c, e)
  {
    GcdIsGcd(a, b);
    GcdIsGcd(c, e);
    IsGcdUnique(Gcd(a, b), Gcd(c, e), c, e);
  }

  lemma GcdZeroLeft(b: nat)
    ensures Gcd(0, b) == b
  {
    GcdIsGcd(0, b);
    DividesRefl(b);
    DividesZero(b);
    IsGcdUnique(Gcd(0, b), b, 0, b);
  }

  lemma GcdComm(a: nat, b: nat)
    ensures Gcd(a, b) == Gcd(b, a)
  {
    GcdOfSameDivisors(a, b, b, a);
  }

  /** Subtracting the smaller argument from the larger keeps the gcd. */
  lemma GcdSub(a: nat, b: nat)
    requires a <= b
    ensures Gcd(a, b) == Gcd(a, b - a)
  {
    forall d: nat
      ensures Divides(d, a) && Divides(d, b) <==> Divides(d, a) && Divides(d, b - a)
    {
      if Divides(d, a) && Divides(d, b) {
        DividesSub(d, b, a);
      }
      if Divides(d, a) && Divides(d, b - a) {
        DividesAdd(d, b - a, a);
      }
    }
    GcdOfSameDivisors(a, b, a, b - a);
  }

  /** With an odd first argument, a factor two of the second does not matter. */
  lemma GcdOddHalve(a: nat, b: nat)
    requires a % 2 == 1
    ensures Gcd(a, 2 * b) == Gcd(a, b)
  {
    forall d: nat
      ensures Divides(d, a) && Divides(d, 2 * b) <==> Divides(d, a) && Divides(d, b)
    {
      if Divides(d, a) && Divides(d, 2 * b) {
        DivisorOfOddIsOdd(d, a);
        OddDividesDouble(d, b);
      }
      if Divides(d, a) && Divides(d, b) {
        DividesMul(d, b, 2);
        assert b * 2 == 2 * b;
      }
    }
    GcdOfSameDivisors(a, 2 * b, a, b);
  }

  /** Strict monotonicity of multiplication by a positive factor. */
  lemma MulStrict(c: nat, a: nat, b: nat)
    requires c > 0 && a < b
    ensures c * a < c * b
  {
    MulAtLeast(c, b - a);
    assert c * b == c * a + c * (b - a);
  }

  /** A common factor comes out of the gcd. */
  lemma {:induction false} GcdMul(c: nat, a: nat, b: nat)
    ensures Gcd(c * a, c * b) == c * Gcd(a, b)
    decreases b
  {
    if b > 0 && c > 0 {
      var q, r := a / b, a % b;
      DivMod(a, b);
      MulDistrib(c, b * q, r);
      MulAssoc(c, b, q);
      MulStrict(c, r, b);
      DivModUnique(c * a, c * b, q, c * r);
      GcdMul(c, b, r);
    } else if b == 0 {
      assert c * b == 0;
    } else {
      assert c * a == 0 && c * b == 0;
    }
  }

  /** Euclid's lemma: a number coprime to `p` can be cancelled from a product
      that `p` divides. */
  lemma CoprimeCancel(a: nat, b: nat, p: nat)
    requires Gcd(a, p) == 1 && Divides(p, a * b)
    ensures Divides(p, b)
  {
    var ba, bp := b * a, b * p;
    assert ba == a * b;
    DividesMul(p, p, b);
    assert bp == p * b;
    GcdIsGcd(ba, bp);
    assert Divides(p, ba) && Divides(p, bp);
    GcdMul(b, a, p);
    assert Gcd(ba, bp) == b * 1;
  }

  /** A product of two numbers coprime to `p` is coprime to `p`. */
  lemma CoprimeMul(a: nat, b: nat, p: nat)
    requires Gcd(a, p) == 1 && Gcd(b, p) == 1
    ensures Gcd(a * b, p) == 1
  {
    var d := Gcd(a * b, p);
    GcdIsGcd(a * b, p);
    GcdIsGcd(a, p);
    GcdIsGcd(b, p);
    // every common divisor of a and d divides a and p, so divides 1
    GcdIsGcd(a, d);
    var e := Gcd(a, d);
    DividesTrans(e, d, p);
    OneDivides(a);
    OneDivides(d);
    DividesAntisym(e, 1);
    CoprimeCancel(a, b, d);
    OneDivides(1);
    DividesAntisym(d, 1);
  }

  // ---------------------------------------------------------------------
  // Primes
  // ---------------------------------------------------------------------

  /** `n` is prime: at least two, with no divisor strictly between one and `n`. */
  predicate IsPrime(n: nat) {
    n >= 2 && forall d :: 2 <= d < n ==> !Divides(d, n)
  }

  /** Every number from two on has a prime divisor no larger than itself. */
  lemma {:induction false} PrimeDivisor(n: nat) returns (r: nat)
    requires n >= 2
    ensures IsPrime(r) && Divides(r, n) && r <= n
    decreases n
  {
    if IsPrime(n) {
      DividesRefl(n);
      r := n;
    } else {
      var d :| 2 <= d < n && Divides(d, n);
      r := PrimeDivisor(d);
      DividesTrans(r, d, n);
    }
  }

  /** The only divisors of a prime `p` are one and `p`, so every number in
      `1 .. p - 1` is coprime to it. */
  lemma PrimeCoprime(p: nat, i: nat)
    requires IsPrime(p) && 1 <= i < p
    ensures Gcd(i, p) == 1
  {
    GcdIsGcd(i, p);
    DividesLe(Gcd(i, p), i);
  }

  /** A number below `n` sharing a proper divisor with `n` is not coprime to it. */
  lemma CompositeWitness(n: nat) returns (d: nat)
    requires n >= 2 && !IsPrime(n)
    ensures 2 <= d < n && Gcd(d, n) == d
  {
    d :| 2 <= d < n && Divides(d, n);
    GcdIsGcd(d, n);
    DividesRefl(d);
    DividesAntisym(Gcd(d, n), d);
  }

  // ---------------------------------------------------------------------
  // Shifts and trailing zeros of unsigned words, on naturals
  // ---------------------------------------------------------------------

  /** `x << k`: `x` doubled `k` times (no overflow is modelled). */
  function Shl(x: nat, k: nat): nat {
    if k == 0 then x else 2 * Shl(x, k - 1)
  }

  /** `x >> k`: `x` halved (rounding down) `k` times. */
  function Shr(x: nat, k: nat): nat {
    if k == 0 then x else Shr(x / 2, k - 1)
  }

  /** The number of trailing zero bits of a positive `x`. */
  function TrailingZeros(x: nat): nat
    requires x > 0
  {
    if x % 2 == 1 then 0 else 1 + TrailingZeros(x / 2)
  }

  /** Shifting out the trailing zeros leaves an odd number, and shifting
      it back restores `x`. */
  lemma {:induction false} ShrTrailingZeros(x: nat)
    requires x > 0
    ensures Shr(x, TrailingZeros(x)) % 2 == 1
    ensures Shl(Shr(x, TrailingZeros(x)), TrailingZeros(x)) == x
  {
    if x % 2 == 0 {
      ShrTrailingZeros(x / 2);
    }
  }

  lemma {:induction false} ShrLe(x: nat, k: nat)
    ensures Shr(x, k) <= x
  {
    if k > 0 {
      ShrLe(x / 2, k - 1);
    }
  }

  lemma {:induction false} ShlAdd(x: nat, a: nat, b: nat)
    ensures Shl(x, a + b) == Shl(Shl(x, a), b)
  {
    if b > 0 {
      ShlAdd(x, a, b - 1);
    }
  }

  /** `gcd(2^k a, 2^k b) = 2^k gcd(a, b)`. */
  lemma {:induction false} GcdShl(a: nat, b: nat, k: nat)
    ensures Gcd(Shl(a, k), Shl(b, k)) == Shl(Gcd(a, b), k)
  {
    if k > 0 {
      GcdShl(a, b, k - 1);
      GcdMul(2, Shl(a, k - 1), Shl(b, k - 1));
    }
  }

  /** With an odd first argument, powers of two in the second do not matter. */
  lemma {:induction false} GcdOddShl(a: nat, b: nat, k: nat)
    requires a % 2 == 1
    ensures Gcd(a, Shl(b, k)) == Gcd(a, b)
  {
    if k > 0 {
      GcdOddShl(a, b, k - 1);
      GcdOddHalve(a, Shl(b, k - 1));
    }
  }

  // ---------------------------------------------------------------------
  // Powers and remainders
  // ---------------------------------------------------------------------

  function Pow(x: nat, n: nat): nat {
    if n == 0 then 1 else x * Pow(x, n - 1)
  }

  lemma {:induction false} PowAdd(x: nat, a: nat, b: nat)
    ensures Pow(x, a + b) == Pow(x, a) * Pow(x, b)
  {
    if a > 0 {
      PowAdd(x, a - 1, b);
      var u, v := Pow(x, a - 1), Pow(x, b);
      assert Pow(x, a + b) == x * Pow(x, (a - 1) + b);
      MulAssoc(x, u, v);
    }
  }

  lemma MulDistrib(c: nat, x: nat, y: nat)
    ensures c * (x + y) == c * x + c * y
  {
  }

  lemma MulAssoc(x: nat, y: nat, z: nat)
    ensures x * (y * z) == (x * y) * z
  {
  }

  lemma {:induction false} PowSquare(x: nat, k: nat)
    ensures Pow(x * x, k) == Pow(x, 2 * k)
  {
    if k > 0 {
      PowSquare(x, k - 1);
      PowAdd(x, 2, 2 * (k - 1));
      assert Pow(x, 1) == x;
      assert Pow(x, 2) == x * x;
      assert 2 + 2 * (k - 1) == 2 * k;
      var rest := Pow(x, 2 * (k - 1));
      assert Pow(x * x, k) == (x * x) * rest;
    }
  }

  lemma ModAddMultiple(p: nat, k: nat, x: nat)
    requires p > 0
    ensures (p * k + x) % p == x % p
  {
    DivMod(x, p);
    assert p * k + x == p * (k + x / p) + x % p;
    DivModUnique(p * k + x, p, k + x / p, x % p);
  }

  lemma ModMulRight(a: nat, b: nat, p: nat)
    requires p > 0
    ensures (a * b) % p == (a * (b % p)) % p
  {
    DivMod(b, p);
    var q := b / p;
    assert a * b == p * (a * q) + a * (b % p);
    ModAddMultiple(p, a * q, a * (b % p));
  }

  lemma ModMulLeft(a: nat, b: nat, p: nat)
    requires p > 0
    ensures (a * b) % p == ((a % p) * b) % p
  {
    ModMulRight(b, a, p);
    assert a * b == b * a && (a % p) * b == b * (a % p);
  }

  lemma ModMod(x: nat, p: nat)
    requires p > 0
    ensures (x % p) % p == x % p
  {
    DivModUnique(x % p, p, 0, x % p);
  }

  lemma {:induction false} PowMod(x: nat, k: nat, p: nat)
    requires p > 0
    ensures Pow(x % p, k) % p == Pow(x, k) % p
  {
    if k > 0 {
      PowMod(x, k - 1, p);
      ModMulRight(x % p, Pow(x % p, k - 1), p);
      ModMulRight(x % p, Pow(x, k - 1), p);
      ModMulLeft(x, Pow(x, k - 1), p);
    }
  }
}
