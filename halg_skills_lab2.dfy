/**
 * The number-theory toolkit: Stein's binary gcd, the sieve of
 * Eratosthenes, recursive modular exponentiation, the multiplicative
 * order by linear search, Euler's totient by counting, and the
 * generators of the multiplicative group modulo a prime by filtering.
 *
 * All integers are naturals: the machine-word width of
 * `usize` and its overflow behaviour are not modelled.
 */
module HalgSkillsLab2 {
  import opened NumberTheory
  import opened MultiplicativeOrder
  import opened Ranges

  datatype Option<T> = None | Some(value: T)

  // ---------------------------------------------------------------------
  // gcd: Stein's binary algorithm
  // ---------------------------------------------------------------------

  /** For odd `a` and `i <= j`: `gcd(2^i a, 2^j b) == 2^i gcd(a, b)`. */
  lemma GcdOddShifted(a: nat, b: nat, i: nat, j: nat)
    requires a % 2 == 1 && i <= j
    ensures NumberTheory.Gcd(Shl(a, i), Shl(b, j)) == Shl(NumberTheory.Gcd(a, b), i)
  {
    var b' := Shl(b, j - i);
    ShlAdd(b, j - i, i);
    assert Shl(b, j) == Shl(b', i);
    GcdShl(a, b', i);
    GcdOddShl(a, b, j - i);
  }

  /** Stripping the trailing zeros of both operands and shifting the gcd
      of the odd parts back by the smaller count gives the gcd. */
  lemma GcdOfOddParts(n: nat, m: nat)
    requires n > 0 && m > 0
    ensures var kn, km := TrailingZeros(n), TrailingZeros(m);
            var k := if kn <= km then kn else km;
            NumberTheory.Gcd(n, m) == Shl(NumberTheory.Gcd(Shr(n, kn), Shr(m, km)), k)
  {
    var kn, km := TrailingZeros(n), TrailingZeros(m);
    var n', m' := Shr(n, kn), Shr(m, km);
    ShrTrailingZeros(n);
    ShrTrailingZeros(m);
    assert n == Shl(n', kn) && m == Shl(m', km);
    if kn <= km {
      GcdOddShifted(n', m', kn, km);
    } else {
      GcdOddShifted(m', n', km, kn);
      GcdComm(n, m);
      GcdComm(m', n');
    }
  }

  /** `gcd(n, m)`: the greatest common divisor, by Stein's algorithm. */
  method Gcd(n0: nat, m0: nat) returns (g: nat)
    ensures IsGcd(g, n0, m0)
    ensures g == NumberTheory.Gcd(n0, m0)
    ensures n0 == 0 ==> g == m0
    ensures m0 == 0 ==> g == n0
  {
    GcdIsGcd(n0, m0);
    var n, m := n0, m0;
    if n == 0 {
      GcdZeroLeft(m);
      return m;
    } else if m == 0 {
      return n;
    }

    // Extract the common factor two.
    var kn := TrailingZeros(n);
    var km := TrailingZeros(m);
    GcdOfOddParts(n, m);
    ShrTrailingZeros(n);
    ShrTrailingZeros(m);
    n := Shr(n, kn);
    m := Shr(m, km);
    var k := if kn <= km then kn else km;

    while true
      invariant n % 2 == 1 && m % 2 == 1
      invariant Shl(NumberTheory.Gcd(n, m), k) == NumberTheory.Gcd(n0, m0)
      decreases n + m
    {
      if n > m {
        GcdComm(n, m);
        n, m := m, n;
      }
      GcdSub(n, m);
      m := m - n;
      if m == 0 {
        return Shl(n, k);
      }
      var t := TrailingZeros(m);
      ShrTrailingZeros(m);
      ShrLe(m, t);
      GcdOddShl(n, Shr(m, t), t);
      m := Shr(m, t);
    }
  }

  // ---------------------------------------------------------------------
  // sieve_of_eratosthenes: striking multiples in a buffer of candidates
  // ---------------------------------------------------------------------

  /** The primes in `[2, n)`, in ascending order. */
  function PrimesBelow(n: nat): (r: seq<nat>)
    ensures forall x: nat :: x in r <==> IsPrime(x) && x < n
    ensures forall i, j :: 0 <= i < j < |r| ==> r[i] < r[j]
  {
    FilterRange(2, n, IsPrime)
  }

  // Trial division, a second, directly evaluable description of the primes.

  /** No number in `[d, n)` divides `n`. */
  function NoDivisorFrom(d: nat, n: nat): bool
    requires d >= 2
    decreases n - d
  {
    d >= n || (n % d != 0 && NoDivisorFrom(d + 1, n))
  }

  lemma {:induction false} NoDivisorFromSound(d: nat, n: nat)
    requires d >= 2
    ensures NoDivisorFrom(d, n) <==> forall k :: d <= k < n ==> !Divides(k, n)
    decreases n - d
  {
    if d < n {
      NoDivisorFromSound(d + 1, n);
      assert Divides(d, n) <==> n % d == 0;
    }
  }

  /** The primes below `n` by trial division of each candidate. */
  function TrialPrimesBelow(n: nat): seq<nat> {
    if n <= 2 then [] else TrialPrimesBelow(n - 1) + (if NoDivisorFrom(2, n - 1) then [n - 1] else [])
  }

  lemma {:induction false} TrialPrimesAgree(n: nat)
    ensures TrialPrimesBelow(n) == PrimesBelow(n)
  {
    if n > 2 {
      TrialPrimesAgree(n - 1);
      NoDivisorFromSound(2, n - 1);
    }
  }

  lemma TrialPrimesBelowTwelve()
    ensures TrialPrimesBelow(12) == [2, 3, 5, 7, 11]
  {
    assert NoDivisorFrom(2, 2) == true;
    assert TrialPrimesBelow(3) == [2];
    assert NoDivisorFrom(2, 3) == true;
    assert TrialPrimesBelow(4) == [2, 3];
    assert NoDivisorFrom(2, 4) == false;
    assert TrialPrimesBelow(5) == [2, 3];
    assert NoDivisorFrom(2, 5) == true;
    assert TrialPrimesBelow(6) == [2, 3, 5];
    assert NoDivisorFrom(2, 6) == false;
    assert TrialPrimesBelow(7) == [2, 3, 5];
    assert NoDivisorFrom(2, 7) == true;
    assert TrialPrimesBelow(8) == [2, 3, 5, 7];
    assert NoDivisorFrom(2, 8) == false;
    assert TrialPrimesBelow(9) == [2, 3, 5, 7];
    assert NoDivisorFrom(2, 9) == false;
    assert TrialPrimesBelow(10) == [2, 3, 5, 7];
    assert NoDivisorFrom(2, 10) == false;
    assert TrialPrimesBelow(11) == [2, 3, 5, 7];
    assert NoDivisorFrom(2, 11) == true;
    assert TrialPrimesBelow(12) == [2, 3, 5, 7, 11];
  }

  /** The example in the documentation of `sieve_of_eratosthenes`: the
      primes below 23. */
  lemma PrimesBelowTwentyThree()
    ensures PrimesBelow(23) == [2, 3, 5, 7, 11, 13, 17, 19]
  {
    TrialPrimesBelowTwelve();
    assert NoDivisorFrom(2, 12) == false;
    assert TrialPrimesBelow(13) == [2, 3, 5, 7, 11];
    assert NoDivisorFrom(7, 13);
    assert NoDivisorFrom(2, 13) == true;
    assert TrialPrimesBelow(14) == [2, 3, 5, 7, 11, 13];
    assert NoDivisorFrom(2, 14) == false;
    assert TrialPrimesBelow(15) == [2, 3, 5, 7, 11, 13];
    assert NoDivisorFrom(2, 15) == false;
    assert TrialPrimesBelow(16) == [2, 3, 5, 7, 11, 13];
    assert NoDivisorFrom(2, 16) == false;
    assert TrialPrimesBelow(17) == [2, 3, 5, 7, 11, 13];
    assert NoDivisorFrom(9, 17);
    assert NoDivisorFrom(2, 17) == true;
    assert TrialPrimesBelow(18) == [2, 3, 5, 7, 11, 13, 17];
    assert NoDivisorFrom(2, 18) == false;
    assert TrialPrimesBelow(19) == [2, 3, 5, 7, 11, 13, 17];
    assert NoDivisorFrom(10, 19);
    assert NoDivisorFrom(2, 19) == true;
    assert TrialPrimesBelow(20) == [2, 3, 5, 7, 11, 13, 17, 19];
    assert NoDivisorFrom(2, 20) == false;
    assert TrialPrimesBelow(21) == [2, 3, 5, 7, 11, 13, 17, 19];
    assert NoDivisorFrom(2, 21) == false;
    assert TrialPrimesBelow(22) == [2, 3, 5, 7, 11, 13, 17, 19];
    assert NoDivisorFrom(2, 22) == false;
    assert TrialPrimesBelow(23) == [2, 3, 5, 7, 11, 13, 17, 19];
    TrialPrimesAgree(23);
  }

  /** `v` is a proper multiple of some prime below `b`: the multiples the
      sieve has struck once every prime below `b` has had its turn. */
  ghost predicate HasSmallPrimeFactor(v: nat, b: nat) {
    exists q :: 2 <= q < b && q < v && IsPrime(q) && Divides(q, v)
  }

  /** Slot `j` holds candidate `j + 2`; it is struck exactly when the
      candidate is a proper multiple of a prime below `b`. */
  ghost predicate SieveState(s: seq<Option<nat>>, b: nat) {
    forall j :: 0 <= j < |s| ==>
      s[j] == (if HasSmallPrimeFactor(j + 2, b) then None else Some(j + 2))
  }

  /** Part way through striking the multiples of `p`: the multiples of
      `p` from `2 * p` up to, but not including, `i` are struck too. */
  ghost predicate StrikeState(s: seq<Option<nat>>, p: nat, i: nat) {
    forall j :: 0 <= j < |s| ==>
      s[j] == (if HasSmallPrimeFactor(j + 2, p) || (Divides(p, j + 2) && p < j + 2 < i)
               then None else Some(j + 2))
  }

  /** Slot `j` survives exactly when `j + 2` is prime. */
  ghost predicate Sieved(s: seq<Option<nat>>) {
    forall j :: 0 <= j < |s| ==> s[j] == (if IsPrime(j + 2) then Some(j + 2) else None)
  }

  /** The surviving values, in order: `iter().flatten()`. */
  function Flatten(s: seq<Option<nat>>): (r: seq<nat>)
    ensures |r| <= |s|
    ensures forall v: nat :: v in r <==> Some(v) in s
  {
    if s == [] then []
    else
      Flatten(s[..|s| - 1]) + (match s[|s| - 1] case Some(v) => [v] case None => [])
  }

  /** The multiple of `p` in `[i, i + p)`, `i` itself a multiple, is `i`. */
  lemma MultipleGap(p: nat, i: nat, v: nat)
    requires p > 0 && i % p == 0 && Divides(p, v) && i <= v < i + p
    ensures v == i
  {
    DivMod(i, p);
    assert v == p * (i / p) + (v - i);
    DivModUnique(v, p, i / p, v - i);
  }

  /** Striking slot `i - 2` moves the striking front from `i` to `i + p`. */
  lemma StrikeStep(s: seq<Option<nat>>, p: nat, i: nat)
    requires p >= 2 && p < i && i % p == 0 && 2 <= i < |s| + 2
    requires StrikeState(s, p, i)
    ensures StrikeState(s[i - 2 := None], p, i + p)
  {
    forall v: nat | Divides(p, v) && i <= v < i + p
      ensures v == i
    {
      MultipleGap(p, i, v);
    }
  }

  /** Before the first strike only the earlier primes' multiples are gone:
      there is no multiple of `p` strictly between `p` and `2 * p`. */
  lemma StrikeStart(s: seq<Option<nat>>, p: nat)
    requires p >= 2 && SieveState(s, p)
    ensures StrikeState(s, p, 2 * p)
  {
    forall v: nat | Divides(p, v) && p < v < 2 * p
      ensures false
    {
      MultipleGap(p, p, v);
    }
  }

  /** A prime's turn adds its proper multiples to those struck. */
  lemma PrimeTurn(v: nat, p: nat)
    requires IsPrime(p)
    ensures HasSmallPrimeFactor(v, p + 1) <==>
            HasSmallPrimeFactor(v, p) || (Divides(p, v) && p < v)
  {
    if HasSmallPrimeFactor(v, p + 1) && !(Divides(p, v) && p < v) {
      var q :| 2 <= q < p + 1 && q < v && IsPrime(q) && Divides(q, v);
      assert 2 <= q < p;
    }
  }

  /** Once all multiples up to the end are struck, the prime's turn is over. */
  lemma StrikeDone(s: seq<Option<nat>>, p: nat, i: nat)
    requires IsPrime(p) && |s| + 2 <= i && StrikeState(s, p, i)
    ensures SieveState(s, p + 1)
  {
    forall v: nat
      ensures HasSmallPrimeFactor(v, p + 1) <==>
              HasSmallPrimeFactor(v, p) || (Divides(p, v) && p < v)
    {
      PrimeTurn(v, p);
    }
  }

  /** A value with no prime factor below itself is prime. */
  lemma NoSmallFactorPrime(v: nat)
    requires v >= 2 && !HasSmallPrimeFactor(v, v)
    ensures IsPrime(v)
  {
    if !IsPrime(v) {
      var d := CompositeWitness(v);
      var r := PrimeDivisor(d);
      GcdIsGcd(d, v);
      DividesTrans(r, d, v);
      DividesLe(r, d);
      assert false;
    }
  }

  /** A prime is a proper multiple of nothing. */
  lemma PrimeNoSmallFactor(v: nat, b: nat)
    ensures IsPrime(v) ==> !HasSmallPrimeFactor(v, b)
  {
  }

  /** After the turn of prime `p`, the least survivor above `p` is the next
      prime, and nothing between them needs a turn. */
  lemma AdvanceSieve(s: seq<Option<nat>>, p: nat, num: nat)
    requires IsPrime(p) && SieveState(s, p + 1) && IsLeastAbove(s, p, num)
    ensures IsPrime(num) && SieveState(s, num) && num < |s| + 2
  {
    var k :| 0 <= k < |s| && s[k] == Some(num);
    assert num == k + 2;
    // No prime lies strictly between p and num.
    forall q | p < q < num
      ensures !IsPrime(q)
    {
      assert s[q - 2] != Some(q);
      PrimeNoSmallFactor(q, p + 1);
    }
    forall v | HasSmallPrimeFactor(v, num)
      ensures HasSmallPrimeFactor(v, p + 1)
    {
      var q :| 2 <= q < num && q < v && IsPrime(q) && Divides(q, v);
      assert q <= p;
    }
    if !IsPrime(num) {
      NoSmallFactorPrimeContra(num, p);
      assert false;
    }
  }

  lemma NoSmallFactorPrimeContra(v: nat, p: nat)
    requires v >= 2 && !IsPrime(v)
    requires forall u :: HasSmallPrimeFactor(u, v) ==> HasSmallPrimeFactor(u, p + 1)
    ensures HasSmallPrimeFactor(v, p + 1)
  {
    if !HasSmallPrimeFactor(v, v) {
      NoSmallFactorPrime(v);
    }
  }

  /** When no survivor exceeds `p`, every composite has been struck. */
  lemma SieveComplete(s: seq<Option<nat>>, p: nat)
    requires IsPrime(p) && SieveState(s, p + 1)
    requires NoneAbove(s, p)
    ensures Sieved(s)
  {
    forall j | 0 <= j < |s|
      ensures s[j] == (if IsPrime(j + 2) then Some(j + 2) else None)
    {
      var v := j + 2;
      if IsPrime(v) {
        PrimeNoSmallFactor(v, p + 1);
      } else {
        var d := CompositeWitness(v);
        var r := PrimeDivisor(d);
        GcdIsGcd(d, v);
        DividesTrans(r, d, v);
        DividesLe(r, d);
        PrimeNoSmallFactor(r, p + 1);
        assert s[r - 2] == Some(r);
        assert HasSmallPrimeFactor(v, p + 1);
      }
    }
  }

  /** The survivors of a finished sieve are the primes, in order. */
  lemma {:induction false} FlattenSieved(s: seq<Option<nat>>)
    requires Sieved(s)
    ensures Flatten(s) == FilterRange(2, |s| + 2, IsPrime)
  {
    if s != [] {
      var t := s[..|s| - 1];
      assert Sieved(t);
      FlattenSieved(t);
    }
  }

  /** `v` is the least surviving value above `p`. */
  ghost predicate IsLeastAbove(s: seq<Option<nat>>, p: nat, v: nat) {
    && p < v
    && (exists k :: 0 <= k < |s| && s[k] == Some(v))
    && forall j :: 0 <= j < |s| && s[j].Some? && p < s[j].value ==> v <= s[j].value
  }

  /** No surviving value exceeds `p`. */
  ghost predicate NoneAbove(s: seq<Option<nat>>, p: nat) {
    forall j :: 0 <= j < |s| && s[j].Some? ==> s[j].value <= p
  }

  /** The result of a finished sieve over `2 .. n` is the primes below `n`. */
  lemma FinishSieve(s: seq<Option<nat>>, n: nat)
    requires |s| + 2 == n || (n < 2 && |s| == 0)
    requires Sieved(s)
    ensures Flatten(s) == PrimesBelow(n)
  {
    FlattenSieved(s);
  }

  /** The least surviving value above `p`: `iter().flatten().filter(|n| n > p).min()`. */
  method LeastSurvivorAbove(buf: array<Option<nat>>, p: nat) returns (r: Option<nat>)
    ensures r.Some? ==> IsLeastAbove(buf[..], p, r.value)
    ensures r.None? <==> NoneAbove(buf[..], p)
  {
    r := None;
    for k := 0 to buf.Length
      invariant r.Some? ==> exists j :: 0 <= j < k && buf[j] == Some(r.value) && p < r.value
      invariant r.Some? ==>
        forall j :: 0 <= j < k && buf[j].Some? && p < buf[j].value ==> r.value <= buf[j].value
      invariant r.None? <==> forall j :: 0 <= j < k && buf[j].Some? ==> buf[j].value <= p
    {
      match buf[k]
      case Some(v) =>
        if p < v && (r.None? || v < r.value) {
          r := Some(v);
        }
      case None =>
    }
  }

  /** The inner loop of the sieve: strike `2 * p, 3 * p, ...` below `n`. */
  method StrikeMultiples(buf: array<Option<nat>>, p: nat, n: nat)
    requires IsPrime(p) && buf.Length + 2 == n
    requires SieveState(buf[..], p)
    modifies buf
    ensures SieveState(buf[..], p + 1)
  {
    var i := 2 * p;
    StrikeStart(buf[..], p);
    assert i % p == 0 by {
      DivModUnique(i, p, 2, 0);
    }
    while i < n
      invariant p < i && i % p == 0
      invariant StrikeState(buf[..], p, i)
      decreases n - i
    {
      ghost var s := buf[..];
      StrikeStep(s, p, i);
      buf[i - 2] := None;
      assert buf[..] == s[i - 2 := None];
      DivMod(i, p);
      DivModUnique(i + p, p, i / p + 1, 0);
      i := i + p;
    }
    StrikeDone(buf[..], p, i);
  }

  /** `sieve_of_eratosthenes(n)`: the primes below `n`, by striking the
      proper multiples of each prime in a buffer holding `2 .. n`. */
  method SieveOfEratosthenes(n: nat) returns (primes: seq<nat>)
    ensures primes == PrimesBelow(n)
  {
    var buf := new Option<nat>[if n >= 2 then n - 2 else 0]((j: nat) => Some(j + 2));
    var p := 2;
    while p <= n
      invariant buf.Length + 2 == n || (n < 2 && buf.Length == 0)
      invariant IsPrime(p) && (p <= n || n < 2)
      invariant SieveState(buf[..], p)
      decreases n - p
    {
      StrikeMultiples(buf, p, n);
      var next := LeastSurvivorAbove(buf, p);
      match next
      case Some(num) =>
        AdvanceSieve(buf[..], p, num);
        p := num;
      case None =>
        SieveComplete(buf[..], p);
        break;
    }
    FinishSieve(buf[..], n);
    primes := Flatten(buf[..]);
  }

  // ---------------------------------------------------------------------
  // exp_with_mod: square-and-multiply
  // ---------------------------------------------------------------------

  /** `x^n` modulo `p` by recursive squaring. `exp_with_mod` reduces modulo
      `p` only when `n >= 2`, so that is the only case in which `p == 0`
      is a division by zero; for `n == 1` it returns `x` unreduced, which is
      why the exact result needs `x < p`. */
  function ExpWithMod(x: nat, n: nat, p: nat): (r: nat)
    requires p != 0 || n <= 1
    ensures p != 0 ==> r % p == Pow(x, n) % p
    ensures p >= 2 && x < p ==> r == Pow(x, n) % p
    ensures n >= 2 ==> r < p
    decreases n
  {
    if n == 0 then
      1
    else if n == 1 then
      x
    else if n % 2 == 0 then
      var r := ExpWithMod((x * x) % p, n / 2, p);
      EvenStep(x, n, p, r);
      r
    else
      var r' := ExpWithMod((x * x) % p, (n - 1) / 2, p);
      OddStep(x, n, p, r');
      (x * r') % p
  }

  lemma EvenStep(x: nat, n: nat, p: nat, r: nat)
    requires p > 0 && n % 2 == 0
    requires r % p == Pow((x * x) % p, n / 2) % p
    ensures r % p == Pow(x, n) % p
  {
    SquareStep(x, n / 2, p);
    assert 2 * (n / 2) == n;
  }

  lemma OddStep(x: nat, n: nat, p: nat, r': nat)
    requires p > 0 && n % 2 == 1
    requires r' % p == Pow((x * x) % p, (n - 1) / 2) % p
    ensures (x * r') % p == Pow(x, n) % p
    ensures ((x * r') % p) % p == (x * r') % p
  {
    SquareStep(x, (n - 1) / 2, p);
    assert 2 * ((n - 1) / 2) == n - 1;
    MultiplyStep(x, r', n - 1, p);
    ModMod(x * r', p);
  }

  /** Squaring the reduced base doubles the exponent, modulo `p`. */
  lemma SquareStep(x: nat, k: nat, p: nat)
    requires p > 0
    ensures Pow((x * x) % p, k) % p == Pow(x, 2 * k) % p
  {
    PowMod(x * x, k, p);
    PowSquare(x, k);
  }

  /** Multiplying a residue of `x^e` by `x` gives a residue of `x^(e+1)`. */
  lemma MultiplyStep(x: nat, r: nat, e: nat, p: nat)
    requires p > 0 && r % p == Pow(x, e) % p
    ensures (x * r) % p == Pow(x, e + 1) % p
  {
    ModMulRight(x, r, p);
    ModMulRight(x, Pow(x, e), p);
  }

  /** The case the tests of `exp_with_mod` check: `3^4 mod 5 == 1`. */
  lemma ExpWithModExample()
    ensures ExpWithMod(3, 4, 5) == 1
  {
  }

  /** Apart from `x` itself at exponent one, the result is the exact residue. */
  lemma ExpWithModIsPow(x: nat, n: nat, p: nat)
    requires p >= 2 && (x < p || n != 1)
    ensures ExpWithMod(x, n, p) == Pow(x, n) % p
  {
    var r := ExpWithMod(x, n, p);
    if n >= 2 {
      DivModUnique(r, p, 0, r);
    }
  }

  // ---------------------------------------------------------------------
  // find_order_of: linear search
  // ---------------------------------------------------------------------

  /** `k` is the first exponent in `1 ..= p` at which `find_order_of`'s test
      `exp_with_mod(g, k, p) == 1` succeeds. */
  predicate IsFirstReturn(g: nat, p: nat, k: nat): (b: bool)
    requires p >= 2
    ensures b ==> g > 0 && NumberTheory.Gcd(g, p) == 1
  {
    ReturnMeansCoprime(g, p, k);
    && 1 <= k <= p
    && ExpWithMod(g, k, p) == 1
    && forall j :: 1 <= j < k ==> ExpWithMod(g, j, p) != 1
  }

  /** A common factor of `g` and `p` divides every residue of a power of `g`,
      so the test never succeeds. */
  lemma NotCoprimeNeverOne(g: nat, p: nat, i: nat)
    requires g > 0 && p >= 2 && i >= 1 && NumberTheory.Gcd(g, p) != 1
    ensures ExpWithMod(g, i, p) != 1
  {
    var d := NumberTheory.Gcd(g, p);
    GcdIsGcd(g, p);
    DividesLe(d, p);
    var r := ExpWithMod(g, i, p);
    if i >= 2 {
      ExpWithModIsPow(g, i, p);
      DividesMul(d, g, Pow(g, i - 1));
      DividesResidue(d, Pow(g, i), p);
    }
    if r == 1 {
      DividesLe(d, 1);
    }
  }

  /** The test succeeds only for a nonzero `g` coprime to `p`: zero has
      residue zero, and a shared factor is the previous lemma. */
  lemma ReturnMeansCoprime(g: nat, p: nat, k: nat)
    requires p >= 2
    ensures 1 <= k && ExpWithMod(g, k, p) == 1 ==> g > 0 && NumberTheory.Gcd(g, p) == 1
  {
    if 1 <= k && g > 0 && NumberTheory.Gcd(g, p) != 1 {
      NotCoprimeNeverOne(g, p, k);
    }
    if 1 <= k && g == 0 {
      ExpWithModIsPow(0, k, p);
      assert Pow(0, k) == 0;
    }
  }

  /** When `g` is coprime to `p` the test succeeds somewhere in `1 ..= p`,
      and below `p` when `g < p`. */
  lemma CoprimeReturns(g: nat, p: nat) returns (i: nat)
    requires p >= 2 && NumberTheory.Gcd(g, p) == 1
    ensures 1 <= i <= p && ExpWithMod(g, i, p) == 1
    ensures g < p ==> i < p
  {
    var k := OrderExists(g, p);
    if k >= 2 || g < p {
      ExpWithModIsPow(g, k, p);
      i := k;
    } else {
      // g is congruent to one but unreduced: the test succeeds at two
      ExpWithModIsPow(g, 2, p);
      assert Pow(g, 2) == g * g;
      ModMulLeft(g, g, p);
      ModMulRight(g % p, g, p);
      i := 2;
    }
  }

  /** The first return is unique, so `generators_of_int_mod`'s comparison
      `find_order_of(g, p) == k` holds exactly when `k` is the first return. */
  lemma FirstReturnUnique(g: nat, p: nat, k1: nat, k2: nat)
    requires p >= 2 && IsFirstReturn(g, p, k1) && IsFirstReturn(g, p, k2)
    ensures k1 == k2
  {
  }

  /** The first return is the multiplicative order unless `g >= p` is
      congruent to one, where the unreduced `exp_with_mod(g, 1, p) == g`
      hides the return at exponent one. */
  lemma FirstReturnIsOrder(g: nat, p: nat, k: nat)
    requires p >= 2 && (g < p || g % p != 1) && IsFirstReturn(g, p, k)
    ensures IsOrder(k, g, p)
  {
    assert ExpWithMod(g, 1, p) == g;
    assert g < p || k != 1;
    ExpWithModIsPow(g, k, p);
    forall j | 1 <= j < k
      ensures Pow(g, j) % p != 1
    {
      if j == 1 {
        assert Pow(g, 1) == g;
        if g < p {
          DivModUnique(g, p, 0, g);
        }
      } else {
        ExpWithModIsPow(g, j, p);
      }
    }
  }

  /** `find_order_of(g, p)`: the first `i` in `1 ..= p` with
      `exp_with_mod(g, i, p) == 1`; `None` where `find_order_of` reaches
      `unreachable!()`, which happens exactly when `g` and `p` share a
      factor. */
  method FindOrderOf(g: nat, p: nat) returns (r: Option<nat>)
    requires g > 0 && p >= 2
    ensures r.Some? ==> IsFirstReturn(g, p, r.value)
    ensures r.None? ==> forall i :: 1 <= i <= p ==> ExpWithMod(g, i, p) != 1
    ensures r.None? <==> NumberTheory.Gcd(g, p) != 1
    ensures r.Some? && g < p ==> r.value < p
    ensures r.Some? && (g < p || g % p != 1) ==> IsOrder(r.value, g, p)
  {
    for i := 1 to p + 1
      invariant forall j :: 1 <= j < i ==> ExpWithMod(g, j, p) != 1
    {
      if ExpWithMod(g, i, p) == 1 {
        if NumberTheory.Gcd(g, p) != 1 {
          NotCoprimeNeverOne(g, p, i);
        }
        if g < p || g % p != 1 {
          FirstReturnIsOrder(g, p, i);
        }
        if g < p {
          var k := CoprimeReturns(g, p);
        }
        return Some(i);
      }
    }
    if NumberTheory.Gcd(g, p) == 1 {
      var k := CoprimeReturns(g, p);
    }
    return None;
  }

  // ---------------------------------------------------------------------
  // euler_phi: filter and count
  // ---------------------------------------------------------------------

  /** The numbers in `[0, k)` coprime to `m`. */
  ghost function CoprimesBelow(m: nat, k: nat): set<nat> {
    set i | 0 <= i < k && NumberTheory.Gcd(i, m) == 1
  }

  /** The count of `(0..k).filter(|i| gcd(i, m) == 1)`. */
  function CoprimeCount(m: nat, k: nat): (r: nat)
    ensures r <= k
  {
    if k == 0 then 0
    else CoprimeCount(m, k - 1) + (if NumberTheory.Gcd(k - 1, m) == 1 then 1 else 0)
  }

  /** The count is the number of coprime elements, and at most `k`. */
  lemma {:induction false} CoprimeCountIsCard(m: nat, k: nat)
    ensures CoprimeCount(m, k) == |CoprimesBelow(m, k)|
    ensures CoprimeCount(m, k) <= k
  {
    if k > 0 {
      CoprimeCountIsCard(m, k - 1);
      assert CoprimesBelow(m, k) ==
        CoprimesBelow(m, k - 1) + (if NumberTheory.Gcd(k - 1, m) == 1 then {k - 1} else {});
    }
  }

  /** `euler_phi(m)`: how many `i` in `[0, m)` have `gcd(i, m) == 1`. The
      gcd is the reference one, which `Gcd` above is proved to compute. */
  function EulerPhi(m: nat): (r: nat)
    ensures r == |CoprimesBelow(m, m)|
    ensures r <= m
  {
    CoprimeCountIsCard(m, m);
    CoprimeCount(m, m)
  }

  /** By convention `euler_phi(1) == 1`: the only candidate, 0, has
      `gcd(0, 1) == 1`. */
  lemma EulerPhiOne()
    ensures EulerPhi(1) == 1
  {
  }

  /** One candidate more: the count grows by one exactly when `k` is
      coprime to `m`. */
  lemma CoprimeCountStep(m: nat, k: nat, c: nat, g: nat)
    requires CoprimeCount(m, k) == c && NumberTheory.Gcd(k, m) == g
    ensures CoprimeCount(m, k + 1) == c + (if g == 1 then 1 else 0)
  {
  }

  /** `euler_phi(30) == 8`, counted one candidate at a time. */
  lemma EulerPhiThirty()
    ensures EulerPhi(30) == 8
  {
    CoprimeCountStep(30, 0, 0, 30);
    CoprimeCountStep(30, 1, 0, 1);
    CoprimeCountStep(30, 2, 1, 2);
    CoprimeCountStep(30, 3, 1, 3);
    CoprimeCountStep(30, 4, 1, 2);
    CoprimeCountStep(30, 5, 1, 5);
    CoprimeCountStep(30, 6, 1, 6);
    CoprimeCountStep(30, 7, 1, 1);
    CoprimeCountStep(30, 8, 2, 2);
    CoprimeCountStep(30, 9, 2, 3);
    CoprimeCountStep(30, 10, 2, 10);
    CoprimeCountStep(30, 11, 2, 1);
    CoprimeCountStep(30, 12, 3, 6);
    CoprimeCountStep(30, 13, 3, 1);
    CoprimeCountStep(30, 14, 4, 2);
    CoprimeCountStep(30, 15, 4, 15);
    CoprimeCountStep(30, 16, 4, 2);
    CoprimeCountStep(30, 17, 4, 1);
    CoprimeCountStep(30, 18, 5, 6);
    CoprimeCountStep(30, 19, 5, 1);
    CoprimeCountStep(30, 20, 6, 10);
    CoprimeCountStep(30, 21, 6, 3);
    CoprimeCountStep(30, 22, 6, 2);
    CoprimeCountStep(30, 23, 6, 1);
    CoprimeCountStep(30, 24, 7, 6);
    CoprimeCountStep(30, 25, 7, 5);
    CoprimeCountStep(30, 26, 7, 2);
    CoprimeCountStep(30, 27, 7, 3);
    CoprimeCountStep(30, 28, 7, 2);
    CoprimeCountStep(30, 29, 7, 1);
  }

  /** `euler_phi(20) == 8`, counted one candidate at a time. */
  lemma EulerPhiTwenty()
    ensures EulerPhi(20) == 8
  {
    CoprimeCountStep(20, 0, 0, 20);
    CoprimeCountStep(20, 1, 0, 1);
    CoprimeCountStep(20, 2, 1, 2);
    CoprimeCountStep(20, 3, 1, 1);
    CoprimeCountStep(20, 4, 2, 4);
    CoprimeCountStep(20, 5, 2, 5);
    CoprimeCountStep(20, 6, 2, 2);
    CoprimeCountStep(20, 7, 2, 1);
    CoprimeCountStep(20, 8, 3, 4);
    CoprimeCountStep(20, 9, 3, 1);
    CoprimeCountStep(20, 10, 4, 10);
    CoprimeCountStep(20, 11, 4, 1);
    CoprimeCountStep(20, 12, 5, 4);
    CoprimeCountStep(20, 13, 5, 1);
    CoprimeCountStep(20, 14, 6, 2);
    CoprimeCountStep(20, 15, 6, 5);
    CoprimeCountStep(20, 16, 6, 4);
    CoprimeCountStep(20, 17, 6, 1);
    CoprimeCountStep(20, 18, 7, 2);
    CoprimeCountStep(20, 19, 7, 1);
  }

  /** Below a prime everything but zero is coprime to it. */
  lemma EulerPhiPrime(p: nat)
    requires IsPrime(p)
    ensures EulerPhi(p) == p - 1
  {
    forall i | 0 <= i < p
      ensures NumberTheory.Gcd(i, p) == 1 <==> 1 <= i
    {
      if i == 0 {
        GcdZeroLeft(p);
      } else {
        PrimeCoprime(p, i);
      }
    }
    assert CoprimesBelow(p, p) == Range(p - 1);
    CoprimeCountIsCard(p, p);
  }

  /** Only a prime `m` has `m - 1` coprimes below it: a proper divisor of
      a composite is not coprime to it, and neither is zero. */
  lemma EulerPhiPrimeIff(m: nat)
    requires m >= 2
    ensures EulerPhi(m) == m - 1 <==> IsPrime(m)
  {
    if IsPrime(m) {
      EulerPhiPrime(m);
    } else {
      var d := CompositeWitness(m);
      GcdZeroLeft(m);
      assert CoprimesBelow(m, m) <= Range(m - 1) - {d};
      SubsetCard(CoprimesBelow(m, m), Range(m - 1) - {d});
      CoprimeCountIsCard(m, m);
    }
  }

  // ---------------------------------------------------------------------
  // generators_of_int_mod: filter by order
  // ---------------------------------------------------------------------

  /** Conversely, for `g < p` the order, when it is at most `p`, is the
      first return. */
  lemma OrderIsFirstReturn(g: nat, p: nat, k: nat)
    requires p >= 2 && g < p && k <= p && IsOrder(k, g, p)
    ensures IsFirstReturn(g, p, k)
  {
    ExpWithModIsPow(g, k, p);
    forall j | 1 <= j < k
      ensures ExpWithMod(g, j, p) != 1
    {
      ExpWithModIsPow(g, j, p);
    }
  }

  /** Every candidate `1 .. p` is coprime to `p`, so `find_order_of`
      returns for each of them. */
  predicate AllCoprimeBelow(p: nat) {
    forall n :: 1 <= n < p ==> NumberTheory.Gcd(n, p) == 1
  }

  /** Everything in `1 .. p` is coprime to `p >= 2` exactly when `p` is
      prime: otherwise a proper divisor shares a factor with it. */
  lemma CoprimeBelowIffPrime(p: nat)
    ensures AllCoprimeBelow(p) <==> p < 2 || IsPrime(p)
  {
    if p < 2 {
    } else if IsPrime(p) {
      forall n | 1 <= n < p
        ensures NumberTheory.Gcd(n, p) == 1
      {
        PrimeCoprime(p, n);
      }
    } else {
      var d := CompositeWitness(p);
    }
  }

  /** The test `generators_of_int_mod` applies to each candidate: its first return
      is `p - 1`. */
  predicate IsGeneratorTest(p: nat, g: nat): (b: bool)
    ensures b ==> p >= 2 && g > 0 && NumberTheory.Gcd(g, p) == 1
  {
    p >= 2 && IsFirstReturn(g, p, p - 1)
  }

  /** For `1 <= g < p`, passing the test means having order `p - 1`. */
  lemma GeneratorTestIsOrder(p: nat, g: nat)
    requires 1 <= g < p
    ensures IsGeneratorTest(p, g) <==> IsOrder(p - 1, g, p)
  {
    if IsGeneratorTest(p, g) {
      FirstReturnIsOrder(g, p, p - 1);
    }
    if IsOrder(p - 1, g, p) {
      OrderIsFirstReturn(g, p, p - 1);
    }
  }

  /** The candidates in `1 .. p` that pass the test. */
  function PassingCandidates(p: nat): (r: seq<nat>)
    ensures forall g: nat :: g in r <==> 1 <= g < p && IsOrder(p - 1, g, p)
    ensures forall i, j :: 0 <= i < j < |r| ==> r[i] < r[j]
  {
    var r := FilterRange(1, p, (g: nat) => IsGeneratorTest(p, g));
    assert forall g: nat :: g in r <==> 1 <= g < p && IsOrder(p - 1, g, p) by {
      forall g: nat | 1 <= g < p
        ensures IsGeneratorTest(p, g) <==> IsOrder(p - 1, g, p)
      {
        GeneratorTestIsOrder(p, g);
      }
    }
    r
  }

  /** `generators_of_int_mod(p)`: the `g` in `1 .. p` whose order modulo
      `p` is `p - 1`, in ascending order. `None` where the Rust function
      panics: a candidate sharing a factor with `p` sends `find_order_of`
      to `unreachable!()`, which happens exactly when `p` is composite. */
  function GeneratorsOfIntMod(p: nat): (r: Option<seq<nat>>)
    ensures r.None? <==> p >= 2 && !IsPrime(p)
    ensures r.Some? ==> forall g: nat :: g in r.value <==> 1 <= g < p && IsOrder(p - 1, g, p)
    ensures r.Some? ==> forall i, j :: 0 <= i < j < |r.value| ==> r.value[i] < r.value[j]
  {
    CoprimeBelowIffPrime(p);
    if AllCoprimeBelow(p) then Some(PassingCandidates(p)) else None
  }
}
