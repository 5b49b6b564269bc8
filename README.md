# umath core in Dafny

A model of the exact, discrete part of `umath.cpp`, a flat catalogue of numeric
functions in namespace `umath`. It covers:

- `gcd` (a Euclidean loop over C `int`) and `lcm`, which is built on it;
- the private `factorial` loop, and `combination` and `permutation` on top of it;
- `median` (sorts a private copy) and `mode` (counts values in a hash map, then
  scans for the greatest count);
- the argument guards of `divide`, `logarithm`, `quadraticRoot1/2`, the
  regular-polygon functions, and `mean`, `variance` and `standardDeviation`;
- the exact polygon angle formulas.

Every failure in the source throws `std::invalid_argument` with a fixed message.
Division by zero throws it too, not a separate exception type. So the model has
one `Result` type whose single error variant, `InvalidArgument(message)`, carries
the source's exact text.

Modules:

| module | file | contents |
|---|---|---|
| `Wrappers`, `Int32` | `wrappers.dfy` | `Result`, the error messages, the C `int` range |
| `NumberTheory` | `number_theory.dfy` | truncating `%`, `gcd` loop, `lcm`, divisibility lemmas |
| `Combinatorics` | `combinatorics.dfy` | `factorial` loop, binomials, `combination`, `permutation` |
| `Algebra` | `algebra.dfy` | `divide`, `logarithm`, `quadraticRoot1/2` |
| `Geometry` | `geometry.dfy` | regular-polygon guards, angles, area, perimeter |
| `Sorting` | `sorting.dfy` | the in-place sort that `median` applies to its copy |
| `Statistics` | `statistics.dfy` | `mean`, `variance`, `standardDeviation`, `median`, `mode` |

Modelling choices:

- `double` is modelled as an exact `real`, and factorials as exact `nat`s.
- In `gcd` and `lcm`, C `int` is an `int` kept inside [-2^31, 2^31 - 1] by
  preconditions. These preconditions exclude exactly the undefined behaviour
  of the source: `INT_MIN % -1`, `std::abs(INT_MIN)`, and an `a * b` that
  overflows. Everywhere else (`factorial`, `combination`, `permutation`, the
  polygon functions, the `size` of the statistics functions) an `int`
  parameter is unbounded, a superset of the source's inputs.
- C++ `%` truncates toward zero. It is written out as `TruncRem`, and the
  `gcd` loop uses it.
- `std::log`, `std::sqrt` and `std::tan` are function parameters. Each is
  constrained only by the property the proofs use.
- A `const double* values, int size` pair is an `array<real>` plus a `size`
  that the caller guarantees is at most `values.Length`.

## Model

| member | source | states |
|---|---|---|
| NumberTheory.TruncRem | umath.cpp:248 | C++ `a % b`: `a == b * q + r` with `q` truncated toward zero, `abs(r) < abs(b)`, and a nonzero remainder takes the sign of the dividend |
| NumberTheory.Rem32 | umath.cpp:248 | for `int` operands, excluding a zero divisor and `INT_MIN % -1`, the remainder is again an `int` and smaller in magnitude than the divisor |
| NumberTheory.Gcd | umath.cpp:245-252 | the loop never hits undefined behaviour in range, returns an `int` that is non-negative, divides both arguments, and is divisible by every common divisor; `gcd(a, 0) == abs(a)` (so `gcd(0, 0) == 0`) |
| NumberTheory.EuclidGcdIsGcd | umath.cpp:245-252 | the truncated-remainder Euclidean recursion computes a greatest common divisor in the divisibility sense |
| NumberTheory.GcdUnique | umath.cpp:251 | two non-negative greatest common divisors of the same pair are equal, so the final `abs` fixes the sign whatever `%` did to it |
| NumberTheory.Bezout | umath.cpp:245-252 | the gcd is an integer combination `a*x + b*y` of the arguments |
| NumberTheory.Lcm | umath.cpp:254-259 | the result is 0 exactly when an argument is 0; otherwise it is a non-negative `int` common multiple of both and `gcd(a,b) * lcm(a,b) == abs(a*b)` |
| NumberTheory.LcmLeast | umath.cpp:254-259 | every common multiple of `a` and `b` is a multiple of `lcm(a, b)` |
| Combinatorics.FactPositive | umath.cpp:11-15 | every factorial is positive |
| Combinatorics.Factorial | umath.cpp:7-16 | negative input fails with the factorial message; otherwise the running product of `2..n` equals `n!` |
| Combinatorics.BinomialTimesFactorials | umath.cpp:154 | Pascal's binomial coefficient times `k! (n-k)!` is `n!`, so the factorial quotient is an exact integer |
| Combinatorics.FallingTimesFactorial | umath.cpp:161 | the falling factorial `n (n-1) ... (n-k+1)` times `(n-k)!` is `n!` |
| Combinatorics.BinomialSymmetric | umath.cpp:154 | `C(n, k) == C(n, n-k)` for binomial coefficients |
| Combinatorics.Combination | umath.cpp:150-155 | fails with the combination message exactly when `k > n`, `n < 0` or `k < 0`; otherwise returns the binomial coefficient `C(n, k)` |
| Combinatorics.Permutation | umath.cpp:157-162 | fails with the permutation message under the same three-way guard; otherwise returns the falling factorial `n!/(n-k)!` |
| Combinatorics.CombinationEdges | umath.cpp:150-155 | `combination(n, 0) == combination(n, n) == 1` |
| Combinatorics.CombinationSymmetric | umath.cpp:150-155 | `combination(n, k) == combination(n, n-k)` |
| Combinatorics.PermutationIsCombinationTimesFactorial | umath.cpp:150-162 | `permutation(n, k) == combination(n, k) * k!` |
| Algebra.Divide | umath.cpp:31-36 | fails with "Division by zero" exactly when `b == 0`; otherwise the quotient times `b` gives back `a` |
| Algebra.Logarithm | umath.cpp:43-48 | fails exactly when `value <= 0` or `base <= 1` (bases in (0, 1) are rejected too); otherwise the result times `ln(base)` is `ln(value)` |
| Algebra.QuadraticFormula | umath.cpp:56 | `(-b + s) / 2a` solves `a x^2 + b x + c == 0` whenever `s^2` is the discriminant |
| Algebra.QuadraticRoot1 | umath.cpp:51-57 | fails with "No real roots" exactly when `b^2 - 4ac < 0`; otherwise returns a root of `a x^2 + b x + c` |
| Algebra.QuadraticRoot2 | umath.cpp:59-65 | the same guard; otherwise returns a root of `a x^2 + b x + c` |
| Algebra.QuadraticRootsVieta | umath.cpp:51-65 | for a non-negative discriminant both succeed, their sum is `-b/a`, their product `c/a`, and they differ by `sqrt(b^2 - 4ac)/a` |
| Geometry.InteriorAngleOfPolygon | umath.cpp:122-127 | fails with the polygon message exactly when `sides < 3`; otherwise the angle lies in [60, 180) |
| Geometry.ExteriorAngleOfPolygon | umath.cpp:129-134 | fails exactly when `sides < 3`; otherwise the angle lies in (0, 120] |
| Geometry.AnglesAreSupplementary | umath.cpp:126-133 | for `sides >= 3` the interior and exterior angles sum to 180 |
| Geometry.ExteriorAnglesMakeFullTurn | umath.cpp:133 | for `sides >= 3` the exterior angle times `sides` is 360 |
| Geometry.AreaOfRegularPolygon | umath.cpp:111-116 | fails exactly when `sides < 3`; otherwise a non-negative area whose product with `4 tan(pi/sides)` is `sides * len^2` |
| Geometry.PerimeterOfRegularPolygon | umath.cpp:118-120 | total: no `sides < 3` guard and no failure; the perimeter is `sides` copies of `sideLength` (dividing it by a nonzero side length gives back `sides`), and is non-negative for non-negative arguments |
| Geometry.PerimeterCountsExteriorAngles | umath.cpp:118-134 | the unguarded perimeter times the exterior angle is `360 * sideLength` |
| Geometry.HexagonAngles | umath.cpp:122-134 | a hexagon has interior angle 120 and exterior angle 60, and a 2-gon is rejected |
| Sorting.InsertIntoSortedPrefix | umath.cpp:212 | one insertion step extends the sorted prefix by one element, permutes the array, and leaves everything after the new prefix as it was |
| Sorting.SortAscending | umath.cpp:212 | the array ends sorted in non-decreasing order and is a permutation of its old contents |
| Sorting.SortedPermutationUnique | umath.cpp:212 | two sorted sequences with the same elements are equal, so any correct sort yields the same copy |
| Statistics.Mean | umath.cpp:179-188 | fails with the size message exactly when `size <= 0`; otherwise the loop's sum over `size` is the mean of the first `size` values |
| Statistics.MeanWithinRange | umath.cpp:179-188 | the mean lies between the least and the greatest value |
| Statistics.SquaredDeviationsNonNegative | umath.cpp:196-198 | a sum of squared deviations is never negative |
| Statistics.VarianceFromDeviations | umath.cpp:190-200 | squared deviations from the mean over the count are the population variance, and it is non-negative |
| Statistics.Variance | umath.cpp:190-200 | fails exactly when `size <= 0`; otherwise the population variance (divided by `size`) around the value `mean` returns, never negative |
| Statistics.StandardDeviation | umath.cpp:202-204 | the failure of `variance` passes through; otherwise the square root of the variance, whose square is the variance |
| Statistics.MedianIsWellDefined | umath.cpp:211-218 | the middle element(s) are the same whichever sorted rearrangement of the input they are read from |
| Statistics.MedianWithinRange | umath.cpp:214-218 | the median of a sorted permutation lies between the input's least and greatest value |
| Statistics.Median | umath.cpp:206-219 | fails exactly when `size <= 0`; otherwise the middle element, or the average of the two middle ones for even `size`, of a sorted permutation of the input, and between its minimum and maximum; the caller's array is not modified |
| Statistics.MedianExamples | umath.cpp:214-218 | the median of {1, 2, 3, 4} is 2.5 and of {3, 1, 2} is 2 |
| Statistics.AnyKey | umath.cpp:234 | the hash-map scan takes some not yet visited key; which one is left open |
| Statistics.Mode | umath.cpp:221-242 | fails exactly when `size <= 0`; otherwise returns a value that occurs in the input, and no value occurs strictly more often; among tied values any may be returned; the caller's array is not modified |

## Left out

- `main.cpp`: a console driver made of stream I/O. `umath.h`: declarations and the `M_PI` fallback, whose value is `Geometry.Pi`.
- `add`, `subtract`, `multiply`, `power`, the circle, semicircle, rectangle, parallelogram and trapezium formulas, and the trigonometric helpers: one-line floating-point formulas or `std` library calls with no guard.
- `derivative` and `integrate`: they take function pointers and accumulate floating-point values.
- IEEE 754 rounding, infinities and NaN: `double` is an exact real throughout, including the sums in `mean` and `variance` and the factorials inside `combination` and `permutation`, which lose precision in `double` for large `n`.
- `std::log`, `std::sqrt` and `std::tan` are parameters constrained by one property each, not implementations.
- QuadraticRoot1: requires `a != 0`; the source does not guard it and divides by zero into an IEEE infinity or NaN, which exact reals cannot express.
- QuadraticRoot2: requires `a != 0` for the same reason.
- QuadraticRootsVieta: requires `a != 0` for the same reason.
- Factorial: requires `n < INT_MAX`; at `INT_MAX` the source's `++i` overflows a signed `int`, which is undefined behaviour.
- Combination: the factorial calls inside it would overflow the same way at `n == INT_MAX`; the model returns the exact binomial for every `n`.
- Permutation: the same factorial overflow at `n == INT_MAX` is not modelled.
- Gcd: requires arguments for which the loop's `%` and the final `std::abs` stay defined (`GcdInRange`); the excluded pairs involve `INT_MIN`.
- Lcm: requires `a * b` to fit strictly inside the `int` range (`LcmInRange`), so `std::abs(a * b)` is defined.
- Mean, Variance, StandardDeviation, Median, Mode: a `const double*` is modelled as an array with `size <= values.Length`; a dangling or short buffer is not modelled.
- Mode: NaN keys in the hash map, and the concrete iteration order that breaks ties, are not modelled; the result is any value of greatest count.
