/**
 * The escape-time kernel shared by the Mandelbrot and Burning Ship checkers.
 *
 * Both `calculate` implementations run the same counting loop: for
 * i = 1, 2, ..., iterations - 1 they apply their update map to the orbit
 * value and return i as soon as the escape test (modulus squared above 4)
 * holds; if it never does, they return `iterations`.  The two families
 * differ only in the floating-point update map, which is not modelled:
 * an `Orbit` says, for each step i, whether the escape test holds after
 * the i-th update of one pixel's orbit.
 */
module Kernel {

  /** Orbit(i) holds when the escape test succeeds after the i-th update. */
  type Orbit = int -> bool

  /** The first step in [from, iterations) whose escape test holds, or `iterations`. */
  function FirstEscape(escaped: Orbit, from: int, iterations: int): int
    decreases iterations - from
  {
    if from >= iterations then iterations
    else if escaped(from) then from
    else FirstEscape(escaped, from + 1, iterations)
  }

  /** The iteration count `calculate` returns: counting starts at step 1. */
  function EscapeCount(escaped: Orbit, iterations: int): int
  {
    FirstEscape(escaped, 1, iterations)
  }

  lemma {:induction false} FirstEscapeIsFirst(escaped: Orbit, from: int, iterations: int)
    ensures var r := FirstEscape(escaped, from, iterations);
      && (from < iterations ==> from <= r <= iterations)
      && (from >= iterations ==> r == iterations)
      && (r < iterations ==> escaped(r))
      && (forall j :: from <= j < r && j < iterations ==> !escaped(j))
    decreases iterations - from
  {
    if from < iterations && !escaped(from) {
      FirstEscapeIsFirst(escaped, from + 1, iterations);
    }
  }

  /**
   * The count is the first escaping step in 1..iterations-1, or the cap
   * itself when no step escapes; for a positive cap it lies in [1, iterations].
   */
  lemma EscapeCountSpec(escaped: Orbit, iterations: int)
    ensures var r := EscapeCount(escaped, iterations);
      && (iterations >= 1 ==> 1 <= r <= iterations)
      && (iterations < 1 ==> r == iterations)
      && (r < iterations ==> escaped(r))
      && (forall j :: 1 <= j < r && j < iterations ==> !escaped(j))
      && (r == iterations <==> forall j :: 1 <= j < iterations ==> !escaped(j))
  {
    FirstEscapeIsFirst(escaped, 1, iterations);
  }

  /** The counting loop of `MandelbrotChecker.calculate` and `BurningShipChecker.calculate`. */
  method Calculate(escaped: Orbit, iterations: int) returns (count: int)
    ensures count == EscapeCount(escaped, iterations)
    ensures iterations >= 1 ==> 1 <= count <= iterations
    ensures count < iterations ==> escaped(count)
    ensures forall j :: 1 <= j < count && j < iterations ==> !escaped(j)
  {
    var i := 1;
    while i < iterations
      invariant 1 <= i
      invariant i <= iterations || i == 1
      invariant FirstEscape(escaped, i, iterations) == EscapeCount(escaped, iterations)
      invariant forall j :: 1 <= j < i ==> !escaped(j)
      decreases iterations - i
    {
      if escaped(i) {
        return i;
      }
      i := i + 1;
    }
    return iterations;
  }
}
