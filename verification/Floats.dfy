/** Floating-point values, as far as guards and bands compare them. */
module Floats {

  datatype Float = NaN | Infinite(negative: bool) | Finite(value: real)

  /** `a <= b`: false as soon as either is not a number. */
  predicate AtMost(a: Float, b: Float) {
    match (a, b)
    case (NaN, _) => false
    case (_, NaN) => false
    case (Finite(x), Finite(y)) => x <= y
    case (Infinite(m), Infinite(n)) => m || !n
    case (Infinite(m), Finite(_)) => m
    case (Finite(_), Infinite(n)) => !n
  }

  /** `a < b` */
  predicate Less(a: Float, b: Float) { AtMost(a, b) && a != b }

  /** Numbers are totally ordered; anything else is not ordered at all. */
  lemma LessOrAtMost(a: Float, b: Float)
    ensures AtMost(a, b) <==> a != NaN && b != NaN && !Less(b, a)
  {
  }
}
