/**
 * The layout engine's `Float`, with NaN as the "undefined" sentinel
 * (FloatUtil and CSSConstants). IEEE rounding and infinities are not
 * modelled: a defined value is an exact real number.
 */
module Scalars {

  /** Either the NaN sentinel or a defined number. */
  datatype Scalar = Undef | Num(v: real)

  /** FloatUtil.EPSILON (`.00001f`). */
  const EPSILON: real := 0.00001

  /** CSSConstants.UNDEFINED, the NaN sentinel. */
  const UNDEFINED: Scalar := Undef

  function Abs(r: real): real {
    if r < 0.0 then -r else r
  }

  /** FloatUtil.isNaN. */
  predicate IsNaN(x: Scalar) {
    x.Undef?
  }

  /** Kotlin `==` on two floats: NaN is unordered, so it equals nothing, not even itself. */
  predicate RawEq(a: Scalar, b: Scalar) {
    a.Num? && b.Num? && a.v == b.v
  }

  /** Kotlin `!=` on two floats: true whenever either side is NaN. */
  predicate RawNe(a: Scalar, b: Scalar) {
    !RawEq(a, b)
  }

  /** CSSConstants.isUndefined, which compares with `==` against NaN. */
  predicate IsUndefined(x: Scalar) {
    RawEq(x, UNDEFINED)
  }

  /** FloatUtil.floatsEqual: NaN-aware, epsilon-tolerant equality. */
  predicate FloatsEqual(f1: Scalar, f2: Scalar) {
    if IsNaN(f1) || IsNaN(f2) then IsNaN(f1) && IsNaN(f2)
    else Abs(f2.v - f1.v) < EPSILON
  }

  // Ordered comparisons: every comparison with NaN is false.

  predicate Lt(a: Scalar, b: Scalar) { a.Num? && b.Num? && a.v < b.v }
  predicate Gt(a: Scalar, b: Scalar) { a.Num? && b.Num? && a.v > b.v }
  predicate Le(a: Scalar, b: Scalar) { a.Num? && b.Num? && a.v <= b.v }
  predicate Ge(a: Scalar, b: Scalar) { a.Num? && b.Num? && a.v >= b.v }

  // Arithmetic: NaN in, NaN out.

  function Add(a: Scalar, b: Scalar): Scalar {
    if a.Num? && b.Num? then Num(a.v + b.v) else Undef
  }

  function Sub(a: Scalar, b: Scalar): Scalar {
    if a.Num? && b.Num? then Num(a.v - b.v) else Undef
  }

  function Mul(a: Scalar, b: Scalar): Scalar {
    if a.Num? && b.Num? then Num(a.v * b.v) else Undef
  }

  function Neg(a: Scalar): Scalar {
    if a.Num? then Num(-a.v) else Undef
  }

  /** A division whose IEEE result is NaN or finite: a defined numerator needs a non-zero divisor. */
  predicate DivOk(a: Scalar, b: Scalar) {
    a.Undef? || b.Undef? || b.v != 0.0
  }

  function Div(a: Scalar, b: Scalar): Scalar
    requires DivOk(a, b)
  {
    if a.Num? && b.Num? then Num(a.v / b.v) else Undef
  }

  /** Kotlin `maxOf` on floats: NaN if either argument is NaN. */
  function MaxOf(a: Scalar, b: Scalar): (r: Scalar)
    ensures r.Num? <==> a.Num? && b.Num?
    ensures r.Num? ==> r.v >= a.v && r.v >= b.v && (r.v == a.v || r.v == b.v)
  {
    if a.Num? && b.Num? then Num(if a.v >= b.v then a.v else b.v) else Undef
  }

  const ZERO: Scalar := Num(0.0)

  // ---------------------------------------------------------------------------
  // Properties of floatsEqual, isNaN and isUndefined
  // ---------------------------------------------------------------------------

  /** If either argument is NaN, floatsEqual holds iff both are. */
  lemma FloatsEqualNaN(a: Scalar, b: Scalar)
    requires IsNaN(a) || IsNaN(b)
    ensures FloatsEqual(a, b) <==> a == Undef && b == Undef
  {
  }

  /** For two defined values, floatsEqual is an open epsilon-interval test. */
  lemma FloatsEqualDefined(a: Scalar, b: Scalar)
    requires a.Num? && b.Num?
    ensures FloatsEqual(a, b) <==> -EPSILON < b.v - a.v < EPSILON
  {
  }

  lemma FloatsEqualSymmetric(a: Scalar, b: Scalar)
    ensures FloatsEqual(a, b) <==> FloatsEqual(b, a)
  {
  }

  /** Reflexive for every value, the sentinel included, unlike `==`. */
  lemma FloatsEqualReflexive(a: Scalar)
    ensures FloatsEqual(a, a)
    ensures a.Undef? ==> !RawEq(a, a)
  {
  }

  /** floatsEqual is not transitive: two steps just under epsilon add up to more. */
  lemma FloatsEqualNotTransitive()
    ensures exists a: Scalar, b: Scalar, c: Scalar ::
              FloatsEqual(a, b) && FloatsEqual(b, c) && !FloatsEqual(a, c)
  {
    var a, b, c := Num(0.0), Num(0.000006), Num(0.000012);
    assert FloatsEqual(a, b) && FloatsEqual(b, c) && !FloatsEqual(a, c);
  }

  /** isNaN holds exactly for the sentinel. */
  lemma IsNaNExactlyUndefined(x: Scalar)
    ensures IsNaN(x) <==> x == UNDEFINED
  {
  }

  /** isUndefined compares with `==`, so it is false for every value, the sentinel included. */
  lemma IsUndefinedNeverHolds(x: Scalar)
    ensures !IsUndefined(x)
    ensures !IsUndefined(UNDEFINED)
  {
  }

  /** Hence isUndefined disagrees with isNaN and with floatsEqual on the sentinel. */
  lemma IsUndefinedDisagreesWithIsNaN()
    ensures IsNaN(UNDEFINED) && !IsUndefined(UNDEFINED)
    ensures FloatsEqual(UNDEFINED, UNDEFINED)
  {
  }

  /** floatsEqual on defined values is preserved by shifting both sides. */
  lemma FloatsEqualShift(a: Scalar, b: Scalar, d: real)
    requires a.Num? && b.Num?
    ensures FloatsEqual(a, b) <==> FloatsEqual(Num(a.v + d), Num(b.v + d))
  {
  }
}
