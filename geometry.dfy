/** The regular-polygon functions of umath.cpp.  The angle formulas are exact
    rationals; the area formula calls `std::tan`, which is a parameter here. */
module Geometry {
  import opened Wrappers

  /** `M_PI` as umath.h defines it when the platform does not. */
  const Pi: real := 3.14159265358979323846

  /** `interiorAngleOfPolygon`: rejects fewer than three sides; otherwise
      (sides - 2) * 180 / sides degrees, from 60 for a triangle up to,
      never reaching, 180. */
  function InteriorAngleOfPolygon(sides: int): (r: Result<real>)
    ensures sides < 3 ==> r == Err(InvalidArgument(TooFewSides))
    ensures sides >= 3 ==> r.Ok? && 60.0 <= r.value < 180.0
  {
    if sides < 3 then
      Err(InvalidArgument(TooFewSides))
    else
      var n := sides as real;
      assert (n - 2.0) * 180.0 / n == 180.0 - 360.0 / n;
      assert 360.0 / n <= 120.0;
      Ok((sides - 2) as real * 180.0 / n)
  }

  /** `exteriorAngleOfPolygon`: rejects fewer than three sides; otherwise
      360 / sides degrees, at most 120. */
  function ExteriorAngleOfPolygon(sides: int): (r: Result<real>)
    ensures sides < 3 ==> r == Err(InvalidArgument(TooFewSides))
    ensures sides >= 3 ==> r.Ok? && 0.0 < r.value <= 120.0
  {
    if sides < 3 then
      Err(InvalidArgument(TooFewSides))
    else
      assert 360.0 / sides as real <= 120.0;
      Ok(360.0 / sides as real)
  }

  /** At each vertex the interior and exterior angles make a straight angle. */
  lemma AnglesAreSupplementary(sides: int)
    requires sides >= 3
    ensures InteriorAngleOfPolygon(sides).value + ExteriorAngleOfPolygon(sides).value == 180.0
  {
    var n := sides as real;
    assert (n - 2.0) * 180.0 / n == 180.0 - 360.0 / n;
  }

  /** The exterior angles of a convex polygon sum to a full turn. */
  lemma ExteriorAnglesMakeFullTurn(sides: int)
    requires sides >= 3
    ensures ExteriorAngleOfPolygon(sides).value * sides as real == 360.0
  {
  }

  /** What is assumed of `std::tan`: positive strictly between 0 and a
      right angle (in radians). */
  ghost predicate TanPositiveBelowRightAngle(tan: real -> real) {
    forall x :: 0.0 < x < Pi / 2.0 ==> 0.0 < tan(x)
  }

  /** `areaOfRegularPolygon`: rejects fewer than three sides; otherwise
      sides * len^2 / (4 tan(pi / sides)), a non-negative area. */
  function AreaOfRegularPolygon(sides: int, sideLength: real, tan: real -> real): (r: Result<real>)
    requires TanPositiveBelowRightAngle(tan)
    ensures sides < 3 ==> r == Err(InvalidArgument(TooFewSides))
    ensures sides >= 3 ==> r.Ok? && 0.0 <= r.value
    ensures sides >= 3 ==> r.value * (4.0 * tan(Pi / sides as real)) == sides as real * sideLength * sideLength
  {
    if sides < 3 then
      Err(InvalidArgument(TooFewSides))
    else
      var n := sides as real;
      assert 0.0 < Pi / n < Pi / 2.0;
      assert 0.0 <= sideLength * sideLength;
      Ok((n * sideLength * sideLength) / (4.0 * tan(Pi / n)))
  }

  /** `perimeterOfRegularPolygon`: no guard at all, any side count is taken;
      the perimeter counts the side length once per side. */
  function PerimeterOfRegularPolygon(sides: int, sideLength: real): (r: real)
    ensures sideLength != 0.0 ==> r / sideLength == sides as real
    ensures 0 <= sides && 0.0 <= sideLength ==> 0.0 <= r
  {
    sides as real * sideLength
  }

  /** For a true polygon the perimeter is the side length scaled by the
      number of exterior angles in a full turn. */
  lemma PerimeterCountsExteriorAngles(sides: int, sideLength: real)
    requires sides >= 3
    ensures PerimeterOfRegularPolygon(sides, sideLength) * ExteriorAngleOfPolygon(sides).value
         == 360.0 * sideLength
  {
    ExteriorAnglesMakeFullTurn(sides);
    var n, e := sides as real, ExteriorAngleOfPolygon(sides).value;
    assert n * sideLength * e == (e * n) * sideLength;
  }

  /** The hexagon of the demonstration driver, and a rejected 2-gon. */
  lemma HexagonAngles()
    ensures InteriorAngleOfPolygon(6) == Ok(120.0)
    ensures ExteriorAngleOfPolygon(6) == Ok(60.0)
    ensures InteriorAngleOfPolygon(2).Err?
  {
  }
}
