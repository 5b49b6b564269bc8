/** How the catalogue reports a rejected argument.  Every guard in umath.cpp
    throws `std::invalid_argument` with a fixed message, including the
    division-by-zero guard of `divide`, so there is a single failure kind. */
module Wrappers {

  datatype Error = InvalidArgument(message: string)

  datatype Result<+T> = Ok(value: T) | Err(error: Error)

  // The messages the source attaches to each guard.
  const FactorialNegative := "Factorial not defined for negative numbers"
  const DivisionByZero := "Division by zero"
  const InvalidLogarithm := "Invalid value or base for logarithm"
  const NoRealRoots := "No real roots"
  const TooFewSides := "A polygon must have at least 3 sides"
  const InvalidCombination := "Invalid values for combination"
  const InvalidPermutation := "Invalid values for permutation"
  const SizeNotPositive := "Size must be positive"
}

/** The range of the C++ `int` the source computes with (32-bit two's complement). */
module Int32 {

  const IntMin: int := -0x8000_0000
  const IntMax: int := 0x7fff_ffff

  predicate IsInt32(x: int) {
    IntMin <= x <= IntMax
  }
}
