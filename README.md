# Kyber-768 arithmetic layer

A Dafny model of the arithmetic core of eurydice's Kyber-768 test crate
(`test/kyber768/arithmetic.rs`): reduction modulo the ML-KEM prime q = 3329
and the polynomial ring element of 256 coefficients built on it.

- `integers.dfy` (module `Integers`): the `i32`/`i64` ranges. Integers are
  mathematical `int`s; each Rust operation that panics on overflow becomes a
  precondition stating that its intermediate results fit.
- `arithmetic.dfy` (module `Arithmetic`): `barrett_reduce`,
  `montgomery_reduce` and `to_montgomery_domain` as pure functions, with their
  constants, their exact overflow-free input domains, congruence modulo q,
  exact divisibility by 2^16, output bounds and the Montgomery round trip.
- `polynomial_ring.dfy` (module `PolynomialRing`): the value view of a ring
  element as `seq<int>` with its algebra (identity, commutativity,
  associativity, subtraction undoing addition); the by-value coefficient
  iterator; and the class `KyberPolynomialRingElement` over an `array<int>` of
  length 256 with `ZERO`, read indexing, in-place write indexing, `into_iter`,
  and `add`/`sub` written as loops over a result seeded from `ZERO`.

The constants `FIELD_MODULUS` (3329) and `COEFFICIENTS_IN_RING_ELEMENT` (256)
come from the crate's `parameters` module, which is not part of this model;
they are declared as constants with the values of section 8 of FIPS 203.

Notes on what the code does:
- `INVERSE_OF_MODULUS_MOD_R` (-3327) is the inverse of q modulo 2^16 (not of
  -q), and `montgomery_reduce` subtracts `t * q`; `Arithmetic.DerivedConstants`
  and `Arithmetic.MontgomeryReduce` state this.
- Over its whole overflow-free domain [-106527, 104862], `barrett_reduce`
  returns a result within (q + 1) / 2 = 1665 of 0, and the model proves that
  bound. The quotient is not always value / q rounded to the nearest integer:
  for 78231 it is 24 where 23 is nearest, leaving -1665 instead of 1664.
- `add` and `sub` apply no reduction, so their laws (identity, commutativity,
  associativity, cancellation) hold as exact equalities, not only modulo q.

## Model

| member | source | states |
|---|---|---|
| `Arithmetic.DerivedConstants` | test/kyber768/arithmetic.rs:7-33 | BARRETT_R is 2^BARRETT_SHIFT and MONTGOMERY_R is 2^MONTGOMERY_SHIFT; 20159 is floor(2^26 / q + 1/2); q * (-3327) is 1 modulo 2^16; 1353 is 2^32 mod q |
| `Arithmetic.BarrettReduceDomain` | test/kyber768/arithmetic.rs:11-12 | `barrett_reduce` overflows no `i32` intermediate exactly when -106527 <= value <= 104862 |
| `Arithmetic.BarrettQuotient` | test/kyber768/arithmetic.rs:12 | the rounded quotient lies in [-32, 31] on the whole domain |
| `Arithmetic.BarrettRemainderBound` | test/kyber768/arithmetic.rs:7-12 | the quotient is within one of value / q rounded: value - quotient * q is within (q + 1) / 2 of 0, the tight bound |
| `Arithmetic.BarrettReduce` | test/kyber768/arithmetic.rs:11-15 | the result is an `i32` congruent to value modulo q with -1665 <= result <= 1665, so its magnitude is below q |
| `Arithmetic.MontgomeryLow` | test/kyber768/arithmetic.rs:17-23 | the `i64` product cannot overflow; t is in [0, 2^16) and t * q is congruent to value modulo 2^16 |
| `Arithmetic.MontgomeryReduceDefinedFrom` | test/kyber768/arithmetic.rs:21-25 | every `i32` input from I32_MIN + (2^16 - 1) * q upwards makes no intermediate overflow |
| `Arithmetic.MontgomeryReduce` | test/kyber768/arithmetic.rs:21-26 | value - t * q is an exact multiple of 2^16 (the shift drops no bits); result * 2^16 is congruent to value modulo q; value / 2^16 - q < result <= value / 2^16 |
| `Arithmetic.CancelMontgomeryR` | test/kyber768/arithmetic.rs:28-30 | 2^16 is invertible modulo q, so a * R congruent to b * R implies a congruent to b |
| `Arithmetic.ToMontgomeryDomainCongruent` | test/kyber768/arithmetic.rs:28-33 | a Montgomery reduction of 1353 * value is congruent to value * 2^16 modulo q |
| `Arithmetic.ToMontgomeryDomain` | test/kyber768/arithmetic.rs:28-34 | the result is an `i32` congruent to value * 2^16 modulo q |
| `Arithmetic.MontgomeryRoundTrip` | test/kyber768/arithmetic.rs:21-34 | reducing the Montgomery form of value is safe and gives a result congruent to value modulo q |
| `Arithmetic.ToMontgomeryDomainCanonical` | test/kyber768/arithmetic.rs:31-33 | every canonical value in [0, q) is a safe input of `to_montgomery_domain` |
| `Arithmetic.ReductionExamples` | test/kyber768/arithmetic.rs:11-34 | q reduces to 0 and q + 1 to 1; 78231 has quotient 24 and reduces to -1665; 1 enters the Montgomery domain as -1044 and returns as -3328, congruent to 1 |
| `PolynomialRing.ZeroIsRingElement` | test/kyber768/arithmetic.rs:42-44 | `ZERO` has exactly 256 coefficients, all 0 |
| `PolynomialRing.ZeroIsIdentity` | test/kyber768/arithmetic.rs:79-97 | A + ZERO == ZERO + A == A and A - ZERO == A exactly |
| `PolynomialRing.AddCommutes` | test/kyber768/arithmetic.rs:79-85 | A + B == B + A |
| `PolynomialRing.AddAssociates` | test/kyber768/arithmetic.rs:79-85 | (A + B) + C == A + (B + C) |
| `PolynomialRing.SubUndoesAdd` | test/kyber768/arithmetic.rs:79-97 | (A + B) - B == A and (A - B) + B == A |
| `PolynomialRing.AddRampsExample` | test/kyber768/arithmetic.rs:79-85 | [1, ..., 256] + [256, ..., 1] has 257 in every coefficient |
| `PolynomialRing.CoefficientIter.Next` | test/kyber768/arithmetic.rs:66-74 | the iterator ends exactly when nothing remains, else yields the first remaining coefficient and continues with the rest, in order |
| `PolynomialRing.YieldedIsRemaining` | test/kyber768/arithmetic.rs:66-74 | driving an iterator to the end yields exactly its remaining coefficients, in order |
| `PolynomialRing.KyberPolynomialRingElement.Zero` | test/kyber768/arithmetic.rs:42-44 | a fresh element equal to `ZERO` |
| `PolynomialRing.KyberPolynomialRingElement.Index` | test/kyber768/arithmetic.rs:58-64 | for index < 256, the coefficient at index of the element's value, an `i32` |
| `PolynomialRing.KyberPolynomialRingElement.IndexMut` | test/kyber768/arithmetic.rs:51-55 | a store through `index_mut` changes coefficient index to the new value and leaves the other 255 unchanged |
| `PolynomialRing.KyberPolynomialRingElement.IntoIter` | test/kyber768/arithmetic.rs:66-74 | the iterator yields exactly 256 coefficients, the i-th being `Index(i)` |
| `PolynomialRing.KyberPolynomialRingElement.Add` | test/kyber768/arithmetic.rs:76-86 | a fresh element whose coefficient i is self[i] + other[i], for every i; operands unchanged |
| `PolynomialRing.KyberPolynomialRingElement.Sub` | test/kyber768/arithmetic.rs:88-98 | a fresh element whose coefficient i is self[i] - other[i], for every i; operands unchanged |

## Left out

- `include/eurydice_glue.h`: C macros over raw pointers and host hooks for the generated C; it holds no arithmetic.
- The `parameters` module: its two values are declared as constants.
- Overflow panics: Rust's debug-mode overflow checks are modelled as preconditions, not as a panic outcome; release-mode wrap-around is not modelled.
- Out-of-range indexing panics: modelled as the precondition index < 256.
- `PolynomialRing.KyberPolynomialRingElement.IndexMut`: the source hides `index_mut` from extraction by placing it in a private module; Dafny's module-level hiding is not used here, so the method is visible to every client of the class.
- The derived traits (`Debug`, `Clone`, `Copy`, `PartialEq`, `Eq`): the by-value copies they give are reflected only in `Add`/`Sub` returning fresh elements and the iterator owning a copy of the coefficients.
- `PolynomialRing.CoefficientIter`: only the sequence the `std::array::IntoIter` yields is modelled, not its internals (double-ended iteration, `size_hint`).
- Constant-time execution: a property of compilation, not of these functions.
