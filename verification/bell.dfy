/** The Gaussian `z ↦ exp(-z²)` of the GUI bot's scores, kept abstract.

    The scores are stated for every function `g` that has the properties
    below, which `exp(-z²)` has; the exact values of `exp` and the rounding
    of IEEE doubles are not modelled. `Surrogate` is one such function, so
    the assumptions are consistent. */
module Bell {
  import opened Numbers

  /** Positive, at most 1, equal to 1 exactly at 0. */
  ghost predicate IsBell(g: real -> real)
  {
    && g(0.0) == 1.0
    && (forall z :: 0.0 < g(z) <= 1.0)
    && (forall z :: z != 0.0 ==> g(z) < 1.0)
  }

  /** The further from 0, the smaller. */
  ghost predicate Unimodal(g: real -> real)
  {
    forall a, b :: Abs(a) <= Abs(b) ==> g(b) <= g(a)
  }

  /** A simple function with the properties assumed of `exp(-z²)`: 1 at 0,
      positive, falling as `|z|` grows. */
  function Surrogate(z: real): real
  {
    1.0 / (1.0 + Abs(z))
  }

  lemma ReciprocalAntitone(d: real, e: real)
    requires 1.0 <= d <= e
    ensures 0.0 < 1.0 / e <= 1.0 / d <= 1.0
    ensures d < e ==> 1.0 / e < 1.0 / d
  {
  }

  /** `Surrogate` meets both assumptions, so they are satisfiable. */
  lemma SurrogateIsBell()
    ensures IsBell(Surrogate)
    ensures Unimodal(Surrogate)
  {
    forall z
      ensures 0.0 < Surrogate(z) <= 1.0
      ensures z != 0.0 ==> Surrogate(z) < 1.0
    {
      ReciprocalAntitone(1.0, 1.0 + Abs(z));
    }
    forall a, b | Abs(a) <= Abs(b)
      ensures Surrogate(b) <= Surrogate(a)
    {
      ReciprocalAntitone(1.0 + Abs(a), 1.0 + Abs(b));
    }
  }
}
