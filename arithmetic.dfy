/** Field reduction modulo the ML-KEM prime q = 3329: Barrett reduction,
    Montgomery reduction with radix R = 2^16, and the conversion into the
    Montgomery domain. All three are stateless functions over `i32`.

    Rust's `>>` on a signed integer is an arithmetic shift, that is floor
    division by a power of two, which is what Dafny's `/` computes for a
    positive divisor. `x & (R - 1)` on a two's-complement `i64` is the
    non-negative residue of `x` modulo R, which is Dafny's `%`. */
module Arithmetic {
  import opened Integers

  /** The prime modulus q of the ML-KEM parameter sets (section 8 of FIPS 203). */
  const FIELD_MODULUS: int := 3329

  const BARRETT_SHIFT: nat := 26
  /** 1 << BARRETT_SHIFT */
  const BARRETT_R: int := 0x400_0000
  /** floor(BARRETT_R / FIELD_MODULUS + 1/2) */
  const BARRETT_MULTIPLIER: int := 20159

  const MONTGOMERY_SHIFT: nat := 16
  /** 1 << MONTGOMERY_SHIFT */
  const MONTGOMERY_R: int := 0x1_0000
  /** FIELD_MODULUS^{-1} mod MONTGOMERY_R, as a signed representative */
  const INVERSE_OF_MODULUS_MOD_R: int := -3327

  /** R^2 mod q, the factor `to_montgomery_domain` multiplies by. */
  const R_SQUARED_MOD_Q: int := 1353

  /** `a` and `b` are congruent modulo q. */
  predicate ModEq(a: int, b: int) {
    (a - b) % FIELD_MODULUS == 0
  }

  lemma ModEqWitness(a: int, b: int, k: int)
    requires a - b == k * FIELD_MODULUS
    ensures ModEq(a, b)
  {
  }

  lemma ModEqTransitive(a: int, b: int, c: int)
    requires ModEq(a, b) && ModEq(b, c)
    ensures ModEq(a, c)
  {
    ModEqWitness(a, c, (a - b) / FIELD_MODULUS + (b - c) / FIELD_MODULUS);
  }

  /** 2^k. */
  function Pow2(k: nat): (p: nat)
    ensures p >= 1
  {
    if k == 0 then 1 else 2 * Pow2(k - 1)
  }

  /** 2^(a + b) == 2^a * 2^b. */
  lemma {:induction false} Pow2Add(a: nat, b: nat)
    ensures Pow2(a + b) == Pow2(a) * Pow2(b)
  {
    if a > 0 {
      Pow2Add(a - 1, b);
    }
  }

  /** The reduction constants are the ones their names promise. */
  lemma DerivedConstants()
    ensures BARRETT_R == Pow2(BARRETT_SHIFT) && MONTGOMERY_R == Pow2(MONTGOMERY_SHIFT)
    ensures BARRETT_MULTIPLIER == (2 * BARRETT_R + FIELD_MODULUS) / (2 * FIELD_MODULUS)
    ensures (FIELD_MODULUS * INVERSE_OF_MODULUS_MOD_R) % MONTGOMERY_R == 1
    ensures R_SQUARED_MOD_Q == (MONTGOMERY_R * MONTGOMERY_R) % FIELD_MODULUS
  {
    assert Pow2(4) == 16;
    Pow2Add(4, 4);
    Pow2Add(8, 8);
    Pow2Add(16, 8);
    Pow2Add(24, 2);
  }

  // ---------------------------------------------------------------- Barrett

  /** No intermediate result of `barrett_reduce` overflows `i32`: the product
      `value * BARRETT_MULTIPLIER` and the rounded sum. (The later product and
      difference never overflow once these two do not; see BarrettReduce.) */
  predicate BarrettReduceDefined(value: int) {
    IsI32(value)
    && IsI32(value * BARRETT_MULTIPLIER)
    && IsI32(value * BARRETT_MULTIPLIER + BARRETT_R / 2)
  }

  /** The inputs on which `barrett_reduce` does not overflow form exactly the
      interval [-106527, 104862]. */
  lemma BarrettReduceDomain(value: int)
    ensures BarrettReduceDefined(value) <==> -106527 <= value <= 104862
  {
  }

  /** The quotient `((value * M) + (R >> 1)) >> S`: an approximation of
      value / q that is within one of the nearest integer. */
  function BarrettQuotient(value: int): (quotient: int)
    requires BarrettReduceDefined(value)
    ensures -32 <= quotient <= 31
  {
    (value * BARRETT_MULTIPLIER + BARRETT_R / 2) / BARRETT_R
  }

  /** The remainder the quotient leaves is at most (q + 1) / 2 in magnitude.
      This is one more than exact rounding would allow: for 78231 (78231 / q is
      23.4998) the quotient is 24, not 23, and the remainder is -1665. */
  lemma BarrettRemainderBound(value: int)
    requires BarrettReduceDefined(value)
    ensures var r := value - BarrettQuotient(value) * FIELD_MODULUS;
      -(FIELD_MODULUS + 1) / 2 <= r <= (FIELD_MODULUS + 1) / 2
  {
    var x := value * BARRETT_MULTIPLIER + BARRETT_R / 2;
    var quotient := BarrettQuotient(value);
    var rem := x % BARRETT_R;
    assert x == quotient * BARRETT_R + rem && 0 <= rem < BARRETT_R;
    var r := value - quotient * FIELD_MODULUS;
    // M * q == R + 447, so r * M == rem - R / 2 - 447 * quotient
    assert r * BARRETT_MULTIPLIER == rem - BARRETT_R / 2 - 447 * quotient;
  }

  /** `barrett_reduce`: value minus the approximate quotient times q. */
  function BarrettReduce(value: int): (r: int)
    requires BarrettReduceDefined(value)
    ensures IsI32(r)
    ensures ModEq(r, value)
    ensures -(FIELD_MODULUS + 1) / 2 <= r <= (FIELD_MODULUS + 1) / 2
  {
    BarrettRemainderBound(value);
    value - BarrettQuotient(value) * FIELD_MODULUS
  }

  // ------------------------------------------------------------- Montgomery

  /** `t` of `montgomery_reduce`: value * q^{-1}, masked to its low 16 bits.
      The `i64` product cannot overflow and the masked value fits `i32`. */
  function MontgomeryLow(value: int): (t: int)
    requires IsI32(value)
    ensures IsI64(value * INVERSE_OF_MODULUS_MOD_R)
    ensures 0 <= t < MONTGOMERY_R
    ensures (t * FIELD_MODULUS - value) % MONTGOMERY_R == 0
  {
    (value * INVERSE_OF_MODULUS_MOD_R) % MONTGOMERY_R
  }

  /** No intermediate result of `montgomery_reduce` overflows `i32`; only the
      subtraction `value - t * q` can, by going below I32_MIN. */
  predicate MontgomeryReduceDefined(value: int) {
    IsI32(value) && IsI32(value - MontgomeryLow(value) * FIELD_MODULUS)
  }

  /** Every input from I32_MIN + (R - 1) * q upwards is safe. */
  lemma MontgomeryReduceDefinedFrom(value: int)
    requires I32_MIN + (MONTGOMERY_R - 1) * FIELD_MODULUS <= value <= I32_MAX
    ensures MontgomeryReduceDefined(value)
  {
  }

  /** `montgomery_reduce`: (value - t * q) >> 16, that is value * R^{-1} mod q. */
  function MontgomeryReduce(value: int): (r: int)
    requires MontgomeryReduceDefined(value)
    ensures IsI32(r)
    // the shift drops no bits
    ensures r * MONTGOMERY_R == value - MontgomeryLow(value) * FIELD_MODULUS
    ensures ModEq(r * MONTGOMERY_R, value)
    ensures value - FIELD_MODULUS * MONTGOMERY_R < r * MONTGOMERY_R <= value
  {
    (value - MontgomeryLow(value) * FIELD_MODULUS) / MONTGOMERY_R
  }

  /** R is invertible modulo q (R * 169 == 1 + 3327 * q), so a congruence
      between multiples of R can be divided by R. */
  lemma CancelMontgomeryR(a: int, b: int)
    requires ModEq(a * MONTGOMERY_R, b * MONTGOMERY_R)
    ensures ModEq(a, b)
  {
    var k := (a * MONTGOMERY_R - b * MONTGOMERY_R) / FIELD_MODULUS;
    assert a * MONTGOMERY_R - b * MONTGOMERY_R == k * FIELD_MODULUS;
    assert a - b == (k * 169 - (a - b) * 3327) * FIELD_MODULUS;
  }

  /** `to_montgomery_domain`: montgomery_reduce(1353 * value). */
  function ToMontgomeryDomain(value: int): (r: int)
    requires IsI32(value) && MontgomeryReduceDefined(R_SQUARED_MOD_Q * value)
    ensures IsI32(r)
    ensures ModEq(r, value * MONTGOMERY_R)
  {
    var r := MontgomeryReduce(R_SQUARED_MOD_Q * value);
    ToMontgomeryDomainCongruent(value, r);
    r
  }

  lemma ToMontgomeryDomainCongruent(value: int, r: int)
    requires ModEq(r * MONTGOMERY_R, R_SQUARED_MOD_Q * value)
    ensures ModEq(r, value * MONTGOMERY_R)
  {
    var k := (r * MONTGOMERY_R - R_SQUARED_MOD_Q * value) / FIELD_MODULUS;
    assert r * MONTGOMERY_R - R_SQUARED_MOD_Q * value == k * FIELD_MODULUS;
    // multiply by R^{-1} == 169: 169 * R == 1 + 3327 * q and 169 * 1353 == R + 49 * q
    ModEqWitness(r, value * MONTGOMERY_R, 169 * k - 3327 * r + 49 * value);
  }

  /** Converting into the Montgomery domain and reducing again gives back a
      value congruent to the input. */
  lemma MontgomeryRoundTrip(value: int)
    requires IsI32(value) && MontgomeryReduceDefined(R_SQUARED_MOD_Q * value)
    ensures MontgomeryReduceDefined(ToMontgomeryDomain(value))
    ensures ModEq(MontgomeryReduce(ToMontgomeryDomain(value)), value)
  {
    var m := ToMontgomeryDomain(value);
    MontgomeryReduceDefinedFrom(m);
    var r := MontgomeryReduce(m);
    ModEqTransitive(r * MONTGOMERY_R, m, value * MONTGOMERY_R);
    CancelMontgomeryR(r, value);
  }

  /** Every canonical field element, 0 <= value < q, can be converted. */
  lemma ToMontgomeryDomainCanonical(value: int)
    requires 0 <= value < FIELD_MODULUS
    ensures IsI32(value) && MontgomeryReduceDefined(R_SQUARED_MOD_Q * value)
  {
    MontgomeryReduceDefinedFrom(R_SQUARED_MOD_Q * value);
  }

  /** Worked values: q reduces to 0 and q + 1 to 1; 78231 reduces to -1665,
      not to 1664, since the quotient is not exactly rounded; 1 enters the Montgomery
      domain as -1044 (== R mod q, up to q) and comes back as -3328 (== 1, up to q). */
  lemma ReductionExamples()
    ensures BarrettReduce(FIELD_MODULUS) == 0
    ensures BarrettReduce(FIELD_MODULUS + 1) == 1
    ensures BarrettQuotient(78231) == 24 && BarrettReduce(78231) == -1665
    ensures ToMontgomeryDomain(1) == -1044 && ModEq(-1044, MONTGOMERY_R)
    ensures MontgomeryReduce(-1044) == -3328 && ModEq(-3328, 1)
  {
  }
}
