/** Small facts about real arithmetic that the solver does not find unaided. */
module RealArith {

  lemma ProductNonNegative(a: real, b: real)
    requires a >= 0.0 && b >= 0.0
    ensures a * b >= 0.0
  {
  }
}
