/**
 Small facts about multiplication and division that the solver does not find
 on its own, shared by the modules of the model.
 */
module Arithmetic {

  /** Every entry is non-negative. */
  predicate NonNegative(x: seq<real>) {
    forall k :: 0 <= k < |x| ==> x[k] >= 0.0
  }

  lemma MultiplyMonotone(a: nat, b: nat, c: nat)
    requires a <= b
    ensures a * c <= b * c
  {
    assert b * c == a * c + (b - a) * c;
  }

  lemma MultiplyStrict(a: nat, b: nat, c: nat)
    requires a < b && c > 0
    ensures a * c < b * c
  {
    assert b * c == a * c + (b - a) * c;
  }

  lemma DivideMonotone(a: nat, b: nat, d: nat)
    requires a <= b && d > 0
    ensures a / d <= b / d
  {
    if a / d > b / d {
      MultiplyMonotone(b / d + 1, a / d, d);
    }
  }

  /** The product of two non-negative reals is non-negative, and positive when both are. */
  lemma ProductSign(x: real, y: real)
    requires x >= 0.0 && y >= 0.0
    ensures x * y >= 0.0
    ensures x > 0.0 && y > 0.0 ==> x * y > 0.0
  {
  }
}
