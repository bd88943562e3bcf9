/**
  The exponential `computeSoftmax` applies. Its values are not computed here:
  the model takes it as a parameter that is positive and strictly increasing,
  which is all the samplers rely on.
 */
module Exponential {
  /** `f` is increasing between `x` and `y`; a named fact, so it is used only where a proof asks for it. */
  ghost predicate IncreasingAt(f: real -> real, x: real, y: real)
  {
    x < y ==> f(x) < f(y)
  }

  /** `f` turns the sum `x + y` into the product of its values, as the exponential does. */
  ghost predicate AddsToProduct(f: real -> real, x: real, y: real)
  {
    f(x + y) == f(x) * f(y)
  }

  /** `f` turns every sum into a product; `math.Exp` does, up to rounding. */
  ghost predicate Multiplicative(f: real -> real)
  {
    forall x, y :: AddsToProduct(f, x, y)
  }

  /** A rational stand-in with the two properties below; it only shows that such functions exist. */
  function RationalExp(x: real): (r: real)
    ensures r > 0.0
  {
    if x >= 0.0 then 1.0 + x else 1.0 / (1.0 - x)
  }

  lemma ReciprocalOrder(a: real, b: real)
    requires 0.0 < b < a
    ensures 1.0 / a < 1.0 / b
  {
    assert 1.0 / b - 1.0 / a == (a - b) / (a * b);
    assert a * b > 0.0;
  }

  lemma RationalExpIncreasing()
    ensures forall x, y :: IncreasingAt(RationalExp, x, y)
  {
    forall x, y | x < y ensures RationalExp(x) < RationalExp(y) {
      if y < 0.0 {
        ReciprocalOrder(1.0 - x, 1.0 - y);
      } else if x < 0.0 {
        ReciprocalOrder(1.0 - x, 1.0);
      }
    }
  }

  /** The properties of `math.Exp` the model uses: positive and strictly increasing. */
  type ExpFn = f: real -> real
    | (forall x :: f(x) > 0.0) && (forall x, y :: IncreasingAt(f, x, y))
    witness (RationalExpIncreasing(); RationalExp)
}
