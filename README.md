# A verified model of a small number-theory toolkit and of GF(2)

The project models two parts of a Rust crate of algebra exercises.

- `src/halg_skills_lab2.rs` is a number-theory toolkit. Its functions are:
  - Stein's binary `gcd`;
  - `sieve_of_eratosthenes`, which strikes multiples in a buffer of `Option` candidates;
  - `exp_with_mod`, recursive square-and-multiply;
  - `find_order_of`, a linear search for the first power that returns to one;
  - `euler_phi`, which counts coprime residues;
  - `generators_of_int_mod`, which filters by order.
- `src/gf2.rs` is the two-element field GF(2) as a one-bit value. Addition is exclusive or, multiplication is conjunction, the additive inverse is the value itself and the multiplicative inverse is negation.

Layout:

- `number_theory.dfy` (module `NumberTheory`) holds the mathematical reference: divisibility, Euclid's `Gcd` with its characterisation `IsGcd`, primes, powers and modular arithmetic. It also holds the word operations `<<`, `>>` and `trailing_zeros` on naturals (`Shl`, `Shr`, `TrailingZeros`), which the `gcd` method uses where `src/halg_skills_lab2.rs` shifts and counts zeros.
- `ranges.dfy` (module `Ranges`) models `(lo..hi).filter(f).collect()` as `FilterRange`. It also has the counting facts used about such ranges, including the pigeonhole principle.
- `multiplicative_order.dfy` (module `MultiplicativeOrder`) defines the multiplicative order. It proves that every number coprime to `p >= 2` has a power below `p` that is congruent to one.
- `halg_skills_lab2.dfy` (module `HalgSkillsLab2`) models the six operations, each in the source's own form:
  - `gcd`, the sieve and `find_order_of` are methods with loops. The sieve keeps the buffer as an `array<Option<nat>>` that it updates in place.
  - `exp_with_mod`, `euler_phi` and `generators_of_int_mod` are functions.
- `gf2.dfy` (module `Gf2`) models the field as a datatype. The `Field(Additive, Multiplicative)` derive claims the field laws. All of them are proved as lemmas except the multiplicative inverse law. That law fails for `MultiplicativeInverse` at `1` (`MultiplicativeInverseOfOne`). It holds for `CorrectedMultiplicativeInverse` (`CorrectedInverseUnique`).

Integers are `nat`, so the source's `usize` width is not modelled.

`euler_phi` calls the binary `gcd`. The model uses Euclid's reference `Gcd` instead, because a function cannot call a method. The method `Gcd` is proved to return exactly the reference `Gcd`.

Panics are modelled as follows:
- `find_order_of`'s `assert!`s become `requires`.
- Its `unreachable!()` becomes a `None` result.
- For `generators_of_int_mod`, that `None` becomes a `None` of the whole list. This happens exactly when `p` is composite.

`exp_with_mod` returns `x` itself when `n == 1`, without reducing it. As a result, for `g >= p` with `g` congruent to one, `find_order_of` returns 2 rather than 1. The model keeps this behaviour. `FindOrderOf` therefore promises the true multiplicative order whenever `g < p` or `g % p != 1`. The only exception is `g >= p` with `g` congruent to one modulo `p`.

## Model

| member | source | states |
|---|---|---|
| HalgSkillsLab2.Gcd | src/halg_skills_lab2.rs:3-39 | the result is a common divisor that every common divisor divides, it equals Euclid's gcd, and `gcd(0, m) == m`, `gcd(n, 0) == n`; the loop keeps both running values odd and their gcd shifted by `k` equal to the answer, with `n + m` decreasing |
| HalgSkillsLab2.GcdOfOddParts | src/halg_skills_lab2.rs:14-22 | stripping the trailing zeros of both operands and shifting the gcd of the odd parts left by the smaller count gives the gcd |
| HalgSkillsLab2.GcdOddShifted | src/halg_skills_lab2.rs:14-22 | for odd `a` and `i <= j`, `gcd(2^i a, 2^j b) == 2^i gcd(a, b)` |
| NumberTheory.GcdShl | src/halg_skills_lab2.rs:14-22 | `gcd(2^k a, 2^k b) == 2^k gcd(a, b)` |
| NumberTheory.GcdOddShl | src/halg_skills_lab2.rs:14-15 | a power of two can be removed from one operand when the other is odd |
| NumberTheory.GcdSub | src/halg_skills_lab2.rs:28-31 | replacing the larger operand by the difference keeps the gcd |
| NumberTheory.GcdIsGcd | src/halg_skills_lab2.rs:3-39 | Euclid's recursive gcd, the reference the binary method is compared with, is the greatest common divisor |
| HalgSkillsLab2.PrimesBelow | src/halg_skills_lab2.rs:41-48 | the specification of the sieve: its elements are exactly the primes below `n`, in strictly ascending order |
| HalgSkillsLab2.SieveOfEratosthenes | src/halg_skills_lab2.rs:50-71 | returns exactly the primes below `n`, ascending; the buffer keeps slot `j` either `Some(j + 2)` or `None`, and `None` exactly for proper multiples of the primes already handled |
| HalgSkillsLab2.StrikeMultiples | src/halg_skills_lab2.rs:54-58 | striking `2p, 3p, ...` below `n` extends the struck values from proper multiples of primes below `p` to those of primes up to `p` |
| HalgSkillsLab2.StrikeStep | src/halg_skills_lab2.rs:55-57 | one strike moves the striking front from `i` to `i + p` and sets only slot `i - 2`, a proper multiple of `p` |
| HalgSkillsLab2.LeastSurvivorAbove | src/halg_skills_lab2.rs:59-62 | returns the least surviving value greater than `p`, or `None` exactly when no survivor exceeds `p` |
| HalgSkillsLab2.AdvanceSieve | src/halg_skills_lab2.rs:63 | the least survivor above a prime `p` is the next prime, and no prime lies between them |
| HalgSkillsLab2.SieveComplete | src/halg_skills_lab2.rs:64 | when no survivor exceeds `p`, the survivors are exactly the primes |
| HalgSkillsLab2.FinishSieve | src/halg_skills_lab2.rs:67-70 | once the buffer is sieved, flattening it gives exactly the primes below `n` |
| HalgSkillsLab2.Flatten | src/halg_skills_lab2.rs:59-70 | `iter().flatten()` keeps exactly the values of the `Some` slots and is no longer than the buffer |
| HalgSkillsLab2.FlattenSieved | src/halg_skills_lab2.rs:67-70 | flattening a finished buffer gives the primes below `n` in order |
| HalgSkillsLab2.PrimesBelowTwentyThree | src/halg_skills_lab2.rs:47-48 | the primes below 23 are `[2, 3, 5, 7, 11, 13, 17, 19]` |
| HalgSkillsLab2.TrialPrimesAgree | src/halg_skills_lab2.rs:41 | trial division of every candidate finds the same primes as the specification |
| HalgSkillsLab2.ExpWithMod | src/halg_skills_lab2.rs:73-85 | the result is congruent to `x^n` modulo `p`; it is exactly `x^n mod p` when `x < p`; it is below `p` whenever `n >= 2`; `p == 0` is allowed only where the source does not reduce |
| HalgSkillsLab2.ExpWithModIsPow | src/halg_skills_lab2.rs:73-85 | for `p >= 2`, apart from an unreduced `x` at `n == 1`, the result is `x^n mod p` |
| HalgSkillsLab2.ExpWithModExample | src/halg_skills_lab2.rs:119 | `exp_with_mod(3, 4, 5) == 1` |
| HalgSkillsLab2.FindOrderOf | src/halg_skills_lab2.rs:87-96 | for `g > 0`, `p >= 2`: returns the first `i` in `1 ..= p` whose test succeeds; `None` (the `unreachable!()`) exactly when `gcd(g, p) != 1`, and then no `i` in `1 ..= p` succeeds; for `g < p` the result is below `p`; whenever `g < p` or `g % p != 1` it is the multiplicative order |
| HalgSkillsLab2.NotCoprimeNeverOne | src/halg_skills_lab2.rs:90-95 | when `g` and `p` share a factor, no power's residue is one |
| HalgSkillsLab2.CoprimeReturns | src/halg_skills_lab2.rs:90-95 | when `g` is coprime to `p`, the search succeeds within `1 ..= p`, and below `p` when `g < p` |
| HalgSkillsLab2.IsFirstReturn | src/halg_skills_lab2.rs:90-93 | `k` is the first exponent in `1 ..= p` whose test succeeds; only a nonzero `g` coprime to `p` has one |
| HalgSkillsLab2.ReturnMeansCoprime | src/halg_skills_lab2.rs:90-95 | a successful test at an exponent `k >= 1` implies `g > 0` and `gcd(g, p) == 1` |
| HalgSkillsLab2.FirstReturnIsOrder | src/halg_skills_lab2.rs:90-93 | when `g < p` or `g % p != 1`, the first success is the multiplicative order |
| HalgSkillsLab2.OrderIsFirstReturn | src/halg_skills_lab2.rs:90-93 | for `g < p`, an order of at most `p` is the first success |
| HalgSkillsLab2.FirstReturnUnique | src/halg_skills_lab2.rs:103 | the first success is unique, so comparing the search result with `p - 1` is the same as asking whether `p - 1` is the first success |
| MultiplicativeOrder.OrderExists | src/halg_skills_lab2.rs:95 | every `g` coprime to `p >= 2` has some `k` in `1 .. p` with `g^k mod p == 1` |
| HalgSkillsLab2.CoprimeCount | src/halg_skills_lab2.rs:99 | the number of `i` in `[0, k)` with `gcd(i, m) == 1`, as the filter and count compute it; never more than `k` |
| HalgSkillsLab2.EulerPhi | src/halg_skills_lab2.rs:98-100 | `euler_phi(m)` is the size of the set of `i` in `[0, m)` with `gcd(i, m) == 1`, and at most `m` |
| HalgSkillsLab2.CoprimeCountIsCard | src/halg_skills_lab2.rs:98-100 | the count equals the number of `i` in `[0, k)` coprime to `m`, and is at most `k` |
| HalgSkillsLab2.EulerPhiPrime | src/halg_skills_lab2.rs:98-100 | `euler_phi(p) == p - 1` for a prime `p` |
| HalgSkillsLab2.EulerPhiPrimeIff | src/halg_skills_lab2.rs:98-100 | for `m >= 2`, `euler_phi(m) == m - 1` exactly when `m` is prime |
| HalgSkillsLab2.EulerPhiOne | src/halg_skills_lab2.rs:131 | `euler_phi(1) == 1` |
| HalgSkillsLab2.EulerPhiThirty | src/halg_skills_lab2.rs:132 | `euler_phi(30) == 8` |
| HalgSkillsLab2.EulerPhiTwenty | src/halg_skills_lab2.rs:133 | `euler_phi(20) == 8` |
| HalgSkillsLab2.GeneratorsOfIntMod | src/halg_skills_lab2.rs:102-104 | `None` (a panic in `find_order_of`) exactly when `p` is composite; otherwise the ascending list of the `g` in `[1, p)` whose multiplicative order is `p - 1` |
| HalgSkillsLab2.PassingCandidates | src/halg_skills_lab2.rs:103 | the candidates that pass the test are exactly those of order `p - 1`, ascending |
| HalgSkillsLab2.IsGeneratorTest | src/halg_skills_lab2.rs:103 | the test `find_order_of(g, p) == p - 1`, as the first return at `p - 1`; it passes only for `p >= 2` and a nonzero `g` coprime to `p` |
| HalgSkillsLab2.GeneratorTestIsOrder | src/halg_skills_lab2.rs:103 | for `1 <= g < p`, `find_order_of(g, p) == p - 1` holds exactly when `g` has order `p - 1` |
| HalgSkillsLab2.CoprimeBelowIffPrime | src/halg_skills_lab2.rs:103 | every candidate in `1 .. p` is coprime to `p` exactly when `p < 2` or `p` is prime |
| Ranges.FilterRange | src/halg_skills_lab2.rs:103 | `(lo..hi).filter(f)`: exactly the `x` in the range with `f(x)`, strictly ascending, at most `hi - lo` of them |
| Gf2.AdditiveIdentity | src/gf2.rs:24-28 | the additive identity is `0` |
| Gf2.MultiplicativeIdentity | src/gf2.rs:30-34 | the multiplicative identity is `1` |
| Gf2.Add | src/gf2.rs:36-40 | exclusive or is addition modulo two |
| Gf2.Mul | src/gf2.rs:42-46 | conjunction is multiplication modulo two |
| Gf2.AdditiveInverse | src/gf2.rs:48-52 | `a + inv(a) == 0` on both sides, and the inverse is `-a` modulo two |
| Gf2.MultiplicativeInverse | src/gf2.rs:54-58 | negation: the result differs from its argument and is `1 - a` modulo two |
| Gf2.CorrectedMultiplicativeInverse | src/gf2.rs:54-58 | inverts every nonzero element on both sides and agrees with the source at zero |
| Gf2.AdditiveIdentityLaw | src/gf2.rs:24-28 | `0` is a two-sided identity for addition |
| Gf2.MultiplicativeIdentityLaw | src/gf2.rs:30-34 | `1` is a two-sided identity for multiplication |
| Gf2.IdentitiesDistinct | src/gf2.rs:19 | `0 != 1` |
| Gf2.AddCommutative | src/gf2.rs:36-40 | addition is commutative |
| Gf2.AddAssociative | src/gf2.rs:36-40 | addition is associative |
| Gf2.AddZeroOne | src/gf2.rs:66-69 | `0 + 1 == 1` |
| Gf2.AdditiveInverseUnique | src/gf2.rs:48-52 | the additive inverse is the element itself and the only element that cancels it |
| Gf2.MulCommutative | src/gf2.rs:42-46 | multiplication is commutative |
| Gf2.MulAssociative | src/gf2.rs:42-46 | multiplication is associative |
| Gf2.MulZero | src/gf2.rs:42-46 | `0` absorbs on both sides |
| Gf2.MulDistributesLeft | src/gf2.rs:19 | `a (c + d) == a c + a d` |
| Gf2.MulDistributesRight | src/gf2.rs:19 | `(c + d) a == c a + d a` |
| Gf2.MultiplicativeInverseOfZero | src/gf2.rs:54-58 | `inv(0) == 1`, and `0 * inv(0) != 1` |
| Gf2.MultiplicativeInverseOfOne | src/gf2.rs:54-58 | `inv(1) == 0`, so `1 * inv(1) != 1` |
| Gf2.MultiplicativeInverseInvolution | src/gf2.rs:54-58 | `inv(inv(a)) == a` |
| Gf2.CorrectedInverseUnique | src/gf2.rs:54-58 | for nonzero `a`, `a * c == 1` exactly when `c` is the corrected inverse |
| Gf2.ZeroNotInvertible | src/gf2.rs:54-58 | no `c` has `0 * c == 1` |
| Gf2.EqualityIsBit | src/gf2.rs:18-22 | equality is equality of the bit, and of the residue |
| Gf2.Less | src/gf2.rs:18 | the derived `PartialOrd` on the one field: `a < c` exactly when the residue of `a` is below that of `c` |
| Gf2.LessIsStrictTotalOrder | src/gf2.rs:18 | the derived order is strict and total, agrees with the residues, and puts `0 < 1` |
| Gf2.ToNat | src/gf2.rs:20-22 | the residue is `0` or `1` and determines the element |

## Left out

- `usize` width: `x * x` and `x * exp_with_mod(..)` in `exp_with_mod`, and `2 * p` and `i += p` in the sieve, can overflow in the source. Here integers are unbounded.
- Panics are not modelled as program aborts. `find_order_of`'s `assert!`s are preconditions. Its `unreachable!()` and the resulting panic of `generators_of_int_mod` are `None` results. The division by zero of `exp_with_mod`'s `% p` at `p == 0` is `ExpWithMod`'s precondition `p != 0 || n <= 1`.
- The `debug_assert!` message in `gcd` is not modelled; its condition, that `n` is odd, is a loop invariant.
- The `alga` trait plumbing and the `#[derive(Alga)]` macro in `src/gf2.rs`. The operations are plain functions and the field laws are lemmas.
- GeneratorsOfIntMod: does not state that the number of generators of a prime `p` is `euler_phi(p - 1)`, as the `list_generator_claim` test checks. That needs the existence of primitive roots, which is not proved here.
- Tests not restated: the primes below 272, `find_order_of(2, 120247)`, `find_order_of(3, 307)`, `find_order_of(7, 211)`, `euler_phi(76)` and `euler_phi(100)`. Their general properties are proved, but working out these concrete values in the verifier exceeds its resource limit.
- The running time of the sieve's repeated rescan is not modelled.

## Findings

| source | as written | input that shows it | evidently intended | confidence | as-written member | corrected member |
|---|---|---|---|---|---|---|
| src/gf2.rs:54-58 | the multiplicative inverse negates the bit | `GF2 { b: true }`: its inverse is `GF2 { b: false }`, and `1 * 0 == 0`, not `1` | the inverse of the one nonzero element is `1`, as in any field | high; follows from the code, not executed | Gf2.MultiplicativeInverseOfOne | Gf2.CorrectedMultiplicativeInverse |
