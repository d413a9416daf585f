/** Angles in radians, as exact reals. */
module Angles {

  /** `Math.PI`: the shortest decimal that rounds to the double nearest to
      pi (that double itself is 3.14159265358979311599...). Proofs only rely
      on it being positive. */
  const Pi: real := 3.141592653589793

  /** One full turn of the wheel, `Math.PI * 2`. */
  const TwoPi: real := 2.0 * Pi

}
