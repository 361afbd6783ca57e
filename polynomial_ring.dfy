/** The ring element of Kyber-768: a polynomial of degree below 256 held as a
    fixed array of 256 `i32` coefficients (index i is the coefficient of x^i).
    Addition and subtraction work coefficient by coefficient and apply no
    reduction modulo q; the caller reduces when it needs to. */
module PolynomialRing {
  import opened Integers

  /** The ring dimension n of the ML-KEM parameter sets. */
  const COEFFICIENTS_IN_RING_ELEMENT: nat := 256

  // ------------------------------------------------ the value view, seq<int>

  /** A legal coefficient sequence: exactly 256 values, each an `i32`. */
  ghost predicate IsRingElement(s: seq<int>) {
    |s| == COEFFICIENTS_IN_RING_ELEMENT && forall i | 0 <= i < |s| :: IsI32(s[i])
  }

  /** The coefficients of `ZERO`. */
  function ZeroCoefficients(): seq<int> {
    seq(COEFFICIENTS_IN_RING_ELEMENT, _ => 0)
  }

  /** Coefficient-wise sum, unreduced. */
  function AddCoefficients(a: seq<int>, b: seq<int>): seq<int>
    requires |a| == |b|
  {
    seq(|a|, i requires 0 <= i < |a| => a[i] + b[i])
  }

  /** Coefficient-wise difference, unreduced. */
  function SubCoefficients(a: seq<int>, b: seq<int>): seq<int>
    requires |a| == |b|
  {
    seq(|a|, i requires 0 <= i < |a| => a[i] - b[i])
  }

  /** No coefficient of `a + b` overflows `i32`. */
  ghost predicate AddFits(a: seq<int>, b: seq<int>)
    requires |a| == |b|
  {
    forall i | 0 <= i < |a| :: IsI32(a[i] + b[i])
  }

  /** No coefficient of `a - b` overflows `i32`. */
  ghost predicate SubFits(a: seq<int>, b: seq<int>)
    requires |a| == |b|
  {
    forall i | 0 <= i < |a| :: IsI32(a[i] - b[i])
  }

  /** `ZERO` is a legal ring element whose every coefficient is 0. */
  lemma ZeroIsRingElement()
    ensures IsRingElement(ZeroCoefficients())
    ensures forall i | 0 <= i < |ZeroCoefficients()| :: ZeroCoefficients()[i] == 0
  {
  }

  /** `ZERO` is the identity of addition and of subtraction on the right. */
  lemma ZeroIsIdentity(a: seq<int>)
    requires |a| == COEFFICIENTS_IN_RING_ELEMENT
    ensures AddCoefficients(a, ZeroCoefficients()) == a
    ensures AddCoefficients(ZeroCoefficients(), a) == a
    ensures SubCoefficients(a, ZeroCoefficients()) == a
  {
  }

  /** Addition commutes. */
  lemma AddCommutes(a: seq<int>, b: seq<int>)
    requires |a| == |b|
    ensures AddCoefficients(a, b) == AddCoefficients(b, a)
  {
  }

  /** Addition associates. */
  lemma AddAssociates(a: seq<int>, b: seq<int>, c: seq<int>)
    requires |a| == |b| == |c|
    ensures AddCoefficients(AddCoefficients(a, b), c) == AddCoefficients(a, AddCoefficients(b, c))
  {
  }

  /** Subtracting `b` undoes adding `b`, and adding `b` undoes subtracting it. */
  lemma SubUndoesAdd(a: seq<int>, b: seq<int>)
    requires |a| == |b|
    ensures SubCoefficients(AddCoefficients(a, b), b) == a
    ensures AddCoefficients(SubCoefficients(a, b), b) == a
  {
  }

  /** Adding the ramps 1, 2, ..., 256 and 256, 255, ..., 1 gives 257 in every
      coefficient. */
  lemma AddRampsExample()
    ensures AddCoefficients(seq(COEFFICIENTS_IN_RING_ELEMENT, i => i + 1),
                            seq(COEFFICIENTS_IN_RING_ELEMENT, i => COEFFICIENTS_IN_RING_ELEMENT - i))
         == seq(COEFFICIENTS_IN_RING_ELEMENT, _ => 257)
  {
  }

  // ------------------------------------------------------------- iteration

  /** The by-value iterator over a ring element's coefficients: the
      coefficients it has not yielded yet. It owns a copy of them, as
      `into_iter` consumes a copy of the element. */
  datatype CoefficientIter = CoefficientIter(remaining: seq<int>)
  {
    /** The next coefficient and the iterator after it, or None at the end. */
    function Next(): (step: Option<(int, CoefficientIter)>)
      ensures step.None? <==> remaining == []
      ensures step.Some? ==>
                step.value.0 == remaining[0] && step.value.1.remaining == remaining[1..]
    {
      if remaining == [] then None
      else Some((remaining[0], CoefficientIter(remaining[1..])))
    }
  }

  datatype Option<T> = None | Some(value: T)

  /** Everything the iterator yields when driven to the end, in order. */
  function Yielded(it: CoefficientIter): seq<int>
    decreases |it.remaining|
  {
    match it.Next()
    case None => []
    case Some((x, rest)) => [x] + Yielded(rest)
  }

  /** Driving an iterator to the end yields exactly its remaining coefficients. */
  lemma {:induction false} YieldedIsRemaining(it: CoefficientIter)
    ensures Yielded(it) == it.remaining
    decreases |it.remaining|
  {
    match it.Next()
    case None =>
    case Some((x, rest)) =>
      YieldedIsRemaining(rest);
      assert rest.remaining == it.remaining[1..];
  }

  // ------------------------------------------------------ the ring element

  /** `KyberPolynomialRingElement`: 256 `i32` coefficients stored in place. */
  class KyberPolynomialRingElement {
    const coefficients: array<int>

    /** The element has exactly 256 coefficients, each an `i32`. */
    ghost predicate Valid()
      reads coefficients
    {
      IsRingElement(coefficients[..])
    }

    /** The value the element holds. */
    function Coefficients(): seq<int>
      reads coefficients
    {
      coefficients[..]
    }

    /** A fresh copy of `ZERO`. */
    constructor Zero()
      ensures Valid() && fresh(coefficients)
      ensures Coefficients() == ZeroCoefficients()
    {
      coefficients := new int[COEFFICIENTS_IN_RING_ELEMENT](_ => 0);
    }

    /** `Index`: the coefficient at `index`; an index of 256 or more panics. */
    function Index(index: nat): (c: int)
      reads coefficients
      requires Valid() && index < COEFFICIENTS_IN_RING_ELEMENT
      ensures IsI32(c)
      ensures c == Coefficients()[index]
    {
      coefficients[index]
    }

    /** `IndexMut` followed by a store through the returned reference: only
        coefficient `index` changes. */
    method IndexMut(index: nat, value: int)
      requires Valid() && index < COEFFICIENTS_IN_RING_ELEMENT && IsI32(value)
      modifies coefficients
      ensures Valid()
      ensures Coefficients() == old(Coefficients())[index := value]
      ensures Index(index) == value
      ensures forall j | 0 <= j < COEFFICIENTS_IN_RING_ELEMENT && j != index :: Index(j) == old(Index(j))
    {
      coefficients[index] := value;
    }

    /** `into_iter`: an iterator over a copy of the coefficients that yields
        all 256 of them in index order. */
    function IntoIter(): (it: CoefficientIter)
      reads coefficients
      requires Valid()
      ensures |Yielded(it)| == COEFFICIENTS_IN_RING_ELEMENT
      ensures forall i | 0 <= i < COEFFICIENTS_IN_RING_ELEMENT :: Yielded(it)[i] == Index(i)
    {
      var it := CoefficientIter(coefficients[..]);
      YieldedIsRemaining(it);
      it
    }

    /** `add`: a new element, seeded from `ZERO`, whose coefficient i is the
        sum of the operands' coefficients i. Neither operand changes. */
    method Add(other: KyberPolynomialRingElement) returns (result: KyberPolynomialRingElement)
      requires Valid() && other.Valid()
      requires AddFits(Coefficients(), other.Coefficients())
      ensures result.Valid() && fresh(result.coefficients)
      ensures result.Coefficients() == AddCoefficients(Coefficients(), other.Coefficients())
    {
      result := new KyberPolynomialRingElement.Zero();
      for i := 0 to COEFFICIENTS_IN_RING_ELEMENT
        invariant fresh(result.coefficients) && result.coefficients.Length == COEFFICIENTS_IN_RING_ELEMENT
        invariant result.coefficients[..i] == AddCoefficients(Coefficients(), other.Coefficients())[..i]
        invariant forall j | i <= j < COEFFICIENTS_IN_RING_ELEMENT :: result.coefficients[j] == 0
      {
        result.coefficients[i] := coefficients[i] + other.coefficients[i];
      }
    }

    /** `sub`: a new element, seeded from `ZERO`, whose coefficient i is the
        difference of the operands' coefficients i. Neither operand changes. */
    method Sub(other: KyberPolynomialRingElement) returns (result: KyberPolynomialRingElement)
      requires Valid() && other.Valid()
      requires SubFits(Coefficients(), other.Coefficients())
      ensures result.Valid() && fresh(result.coefficients)
      ensures result.Coefficients() == SubCoefficients(Coefficients(), other.Coefficients())
    {
      result := new KyberPolynomialRingElement.Zero();
      for i := 0 to COEFFICIENTS_IN_RING_ELEMENT
        invariant fresh(result.coefficients) && result.coefficients.Length == COEFFICIENTS_IN_RING_ELEMENT
        invariant result.coefficients[..i] == SubCoefficients(Coefficients(), other.Coefficients())[..i]
        invariant forall j | i <= j < COEFFICIENTS_IN_RING_ELEMENT :: result.coefficients[j] == 0
      {
        result.coefficients[i] := coefficients[i] - other.coefficients[i];
      }
    }
  }
}
