/** `divide`, `logarithm` and `quadraticRoot1/2` of umath.cpp: the argument
    guards exactly, and the values over exact reals.  The library calls
    `std::log` and `std::sqrt` are parameters, constrained only by the one
    property the statements below need. */
module Algebra {
  import opened Wrappers

  /** `divide`: rejects a zero divisor; otherwise the exact quotient. */
  function Divide(a: real, b: real): (r: Result<real>)
    ensures b == 0.0 ==> r == Err(InvalidArgument(DivisionByZero))
    ensures b != 0.0 ==> r.Ok? && r.value * b == a
  {
    if b == 0.0 then Err(InvalidArgument(DivisionByZero)) else Ok(a / b)
  }

  /** What is assumed of `std::log`: it is positive above 1. */
  ghost predicate LogPositiveAboveOne(ln: real -> real) {
    forall x :: 1.0 < x ==> 0.0 < ln(x)
  }

  /** `logarithm`: rejects a non-positive value and every base up to and
      including 1 (so bases in (0, 1) too); otherwise ln(value) / ln(base). */
  function Logarithm(value: real, base: real, ln: real -> real): (r: Result<real>)
    requires LogPositiveAboveOne(ln)
    ensures r.Err? <==> value <= 0.0 || base <= 1.0
    ensures r.Err? ==> r.error == InvalidArgument(InvalidLogarithm)
    ensures r.Ok? ==> r.value * ln(base) == ln(value)
  {
    if value <= 0.0 || base <= 1.0 then
      Err(InvalidArgument(InvalidLogarithm))
    else
      Ok(ln(value) / ln(base))
  }

  function Discriminant(a: real, b: real, c: real): real {
    b * b - 4.0 * a * c
  }

  /** What is assumed of `std::sqrt`: on non-negative arguments it returns a
      non-negative square root. */
  ghost predicate IsSquareRoot(sqrt: real -> real) {
    forall x :: 0.0 <= x ==> 0.0 <= sqrt(x) && sqrt(x) * sqrt(x) == x
  }

  /** With s * s == b^2 - 4ac, (-b + s) / 2a solves a x^2 + b x + c == 0. */
  lemma QuadraticFormula(a: real, b: real, c: real, s: real)
    requires a != 0.0 && s * s == Discriminant(a, b, c)
    ensures a * ((-b + s) / (2.0 * a)) * ((-b + s) / (2.0 * a)) + b * ((-b + s) / (2.0 * a)) + c == 0.0
  {
    var x := (-b + s) / (2.0 * a);
    assert 2.0 * a * x == -b + s;
    var y := 2.0 * a * x;
    assert 4.0 * a * (a * x * x + b * x + c) == y * y + 2.0 * b * y + 4.0 * a * c;
    assert y * y + 2.0 * b * y + 4.0 * a * c == s * s - b * b + 4.0 * a * c;
  }

  /** `quadraticRoot1`: rejects a negative discriminant; otherwise the root
      (-b + sqrt(b^2 - 4ac)) / 2a. */
  function QuadraticRoot1(a: real, b: real, c: real, sqrt: real -> real): (r: Result<real>)
    requires a != 0.0 && IsSquareRoot(sqrt)
    ensures r.Err? <==> Discriminant(a, b, c) < 0.0
    ensures r.Err? ==> r.error == InvalidArgument(NoRealRoots)
    ensures r.Ok? ==> a * r.value * r.value + b * r.value + c == 0.0
  {
    var discriminant := Discriminant(a, b, c);
    if discriminant < 0.0 then
      Err(InvalidArgument(NoRealRoots))
    else
      QuadraticFormula(a, b, c, sqrt(discriminant));
      Ok((-b + sqrt(discriminant)) / (2.0 * a))
  }

  /** `quadraticRoot2`: the same guard; otherwise (-b - sqrt(b^2 - 4ac)) / 2a. */
  function QuadraticRoot2(a: real, b: real, c: real, sqrt: real -> real): (r: Result<real>)
    requires a != 0.0 && IsSquareRoot(sqrt)
    ensures r.Err? <==> Discriminant(a, b, c) < 0.0
    ensures r.Err? ==> r.error == InvalidArgument(NoRealRoots)
    ensures r.Ok? ==> a * r.value * r.value + b * r.value + c == 0.0
  {
    var discriminant := Discriminant(a, b, c);
    if discriminant < 0.0 then
      Err(InvalidArgument(NoRealRoots))
    else
      QuadraticFormula(a, b, c, -sqrt(discriminant));
      Ok((-b - sqrt(discriminant)) / (2.0 * a))
  }

  /** The two roots are the two solutions: their sum is -b/a and their
      product c/a (Vieta), and they lie sqrt(b^2 - 4ac) / a apart. */
  lemma QuadraticRootsVieta(a: real, b: real, c: real, sqrt: real -> real)
    requires a != 0.0 && IsSquareRoot(sqrt) && 0.0 <= Discriminant(a, b, c)
    ensures QuadraticRoot1(a, b, c, sqrt).Ok? && QuadraticRoot2(a, b, c, sqrt).Ok?
    ensures QuadraticRoot1(a, b, c, sqrt).value + QuadraticRoot2(a, b, c, sqrt).value == -b / a
    ensures QuadraticRoot1(a, b, c, sqrt).value * QuadraticRoot2(a, b, c, sqrt).value == c / a
    ensures QuadraticRoot1(a, b, c, sqrt).value - QuadraticRoot2(a, b, c, sqrt).value
         == sqrt(Discriminant(a, b, c)) / a
  {
    var d := Discriminant(a, b, c);
    var s := sqrt(d);
    var x1, x2 := (-b + s) / (2.0 * a), (-b - s) / (2.0 * a);
    assert QuadraticRoot1(a, b, c, sqrt).value == x1;
    assert QuadraticRoot2(a, b, c, sqrt).value == x2;
    assert x1 + x2 == -b / a;
    assert (2.0 * a * x1) * (2.0 * a * x2) == b * b - s * s;
    assert 4.0 * a * a * (x1 * x2) == 4.0 * a * c;
    assert x1 - x2 == s / a;
  }
}
