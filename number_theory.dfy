/** `gcd` and `lcm` of umath.cpp on C++ `int`.  The loop of `gcd` uses the
    truncating `%` of C++, modelled by `TruncRem`; the inputs for which the C++
    code has undefined behaviour (an overflowing `%` or `std::abs`) are excluded
    by preconditions. */
module NumberTheory {
  import opened Int32

  function Abs(x: int): nat {
    if x < 0 then -x else x
  }

  /** `d` divides `n`: `n` is `d` times some integer (zero divides only zero). */
  predicate Divides(d: int, n: int) {
    if d == 0 then n == 0 else n % d == 0
  }

  /** The quotient of C++ integer `/`, which truncates toward zero. */
  function TruncQuot(a: int, b: int): int
    requires b != 0
  {
    if (a < 0) == (b < 0) then Abs(a) / Abs(b) else -(Abs(a) / Abs(b))
  }

  /** The remainder of C++ integer `%`: its magnitude is |a| mod |b| and it
      carries the sign of the dividend. */
  function TruncRem(a: int, b: int): (r: int)
    requires b != 0
    ensures a == b * TruncQuot(a, b) + r
    ensures Abs(r) < Abs(b)
    ensures r != 0 ==> (r < 0 <==> a < 0)
  {
    TruncDivision(a, b);
    if a < 0 then -(Abs(a) % Abs(b)) else Abs(a) % Abs(b)
  }

  lemma TruncDivision(a: int, b: int)
    requires b != 0
    ensures a == b * TruncQuot(a, b) + (if a < 0 then -(Abs(a) % Abs(b)) else Abs(a) % Abs(b))
  {
    var q0, m := Abs(a) / Abs(b), Abs(a) % Abs(b);
    assert Abs(a) == Abs(b) * q0 + m;
    if b < 0 {
      assert b * -q0 == Abs(b) * q0;
      assert b * q0 == -(Abs(b) * q0);
    } else {
      assert b * -q0 == -(Abs(b) * q0);
    }
  }

  /** C++ `a % b` on `int`: undefined when `b == 0` and when the quotient
      overflows (`INT_MIN % -1`); otherwise it cannot leave the range. */
  function Rem32(a: int, b: int): (r: int)
    requires IsInt32(a) && IsInt32(b) && b != 0 && !(a == IntMin && b == -1)
    ensures IsInt32(r) && Abs(r) < Abs(b)
  {
    TruncRem(a, b)
  }

  /** C++ `std::abs` on `int`: undefined for `INT_MIN`. */
  function Abs32(x: int): (r: int)
    requires IsInt32(x) && x != IntMin
    ensures IsInt32(r) && 0 <= r && (r == x || r == -x)
  {
    Abs(x)
  }

  /** Euclid's algorithm as the loop of `gcd` runs it, written as recursion. */
  function EuclidGcd(a: int, b: int): nat
    decreases Abs(b)
  {
    if b == 0 then Abs(a) else EuclidGcd(b, TruncRem(a, b))
  }

  /** `g` is the greatest common divisor of `a` and `b`, in the divisibility order. */
  ghost predicate IsGcd(g: int, a: int, b: int) {
    && 0 <= g
    && Divides(g, a) && Divides(g, b)
    && forall d :: Divides(d, a) && Divides(d, b) ==> Divides(d, g)
  }

  lemma MulMagnitude(d: int, e: int)
    requires e != 0
    ensures Abs(d * e) >= Abs(d)
  {
    var e' := Abs(e) - 1;
    assert Abs(d * e) == Abs(d) * Abs(e) by {
      if d < 0 && e < 0 {
        assert d * e == (-d) * (-e);
      } else if d < 0 {
        assert d * e == -((-d) * e);
      } else if e < 0 {
        assert d * e == -(d * (-e));
      }
    }
    assert Abs(d) * Abs(e) == Abs(d) * e' + Abs(d);
  }

  lemma DividesMultiple(d: int, k: int)
    ensures Divides(d, d * k)
  {
    if d != 0 {
      var m := d * k;
      var e := k - m / d;
      assert m == d * (m / d) + m % d;
      assert m % d == d * e;
      if e != 0 {
        MulMagnitude(d, e);
      }
    }
  }

  lemma DividesLinear(d: int, x: int, y: int, u: int, v: int)
    requires Divides(d, x) && Divides(d, y)
    ensures Divides(d, x * u + y * v)
  {
    if d != 0 {
      var x', y' := x / d, y / d;
      assert x == d * x';
      assert y == d * y';
      assert x * u + y * v == d * (x' * u + y' * v);
      DividesMultiple(d, x' * u + y' * v);
    }
  }

  /** A divisor of a positive number is no larger than it. */
  lemma DividesBounded(d: int, n: int)
    requires 0 <= d && 0 < n && Divides(d, n)
    ensures d <= n
  {
    var q := n / d;
    assert n == d * q;
    assert q >= 1;
    assert d * q == d * (q - 1) + d;
  }

  /** Replacing `a` by `a % b` keeps the common divisors of the pair. */
  lemma RemainderKeepsDivisors(a: int, b: int, d: int)
    requires b != 0 && Divides(d, b)
    ensures Divides(d, a) <==> Divides(d, TruncRem(a, b))
  {
    var q, r := TruncQuot(a, b), TruncRem(a, b);
    if Divides(d, a) {
      DividesLinear(d, a, b, 1, -q);
      assert a * 1 + b * -q == r;
    }
    if Divides(d, r) {
      DividesLinear(d, b, r, q, 1);
      assert b * q + r * 1 == a;
    }
  }

  lemma AbsIsGcdWithZero(a: int)
    ensures IsGcd(Abs(a), a, 0)
  {
    var sign := if a < 0 then -1 else 1;
    assert a == Abs(a) * sign;
    DividesMultiple(Abs(a), sign);
    DividesMultiple(Abs(a), 0);
    forall d | Divides(d, a) && Divides(d, 0)
      ensures Divides(d, Abs(a))
    {
      DividesLinear(d, a, 0, sign, 0);
      assert a * sign + 0 * 0 == Abs(a);
    }
  }

  lemma {:induction false} EuclidGcdIsGcd(a: int, b: int)
    ensures IsGcd(EuclidGcd(a, b), a, b)
    decreases Abs(b)
  {
    if b == 0 {
      AbsIsGcdWithZero(a);
    } else {
      var r := TruncRem(a, b);
      var g := EuclidGcd(b, r);
      EuclidGcdIsGcd(b, r);
      RemainderKeepsDivisors(a, b, g);
      forall d | Divides(d, a) && Divides(d, b)
        ensures Divides(d, g)
      {
        RemainderKeepsDivisors(a, b, d);
      }
    }
  }

  /** The greatest common divisor is unique. */
  lemma GcdUnique(g1: int, g2: int, a: int, b: int)
    requires IsGcd(g1, a, b) && IsGcd(g2, a, b)
    ensures g1 == g2
  {
    assert Divides(g1, g2) && Divides(g2, g1);
    if g1 != 0 && g2 != 0 {
      DividesBounded(g1, g2);
      DividesBounded(g2, g1);
    }
  }

  /** The arguments for which the C++ `gcd` has no undefined behaviour: the
      pairs (INT_MIN, -1) and (-1, INT_MIN) reach `INT_MIN % -1`, and the pairs
      (INT_MIN, 0), (0, INT_MIN) and (INT_MIN, INT_MIN) reach `std::abs(INT_MIN)`. */
  predicate GcdInRange(a: int, b: int) {
    && IsInt32(a) && IsInt32(b)
    && !(a == IntMin && (b == -1 || b == 0 || b == IntMin))
    && !(b == IntMin && (a == -1 || a == 0))
  }

  /** One turn of the loop of `gcd` keeps its arguments in the defined range. */
  lemma GcdStepInRange(x: int, y: int)
    requires GcdInRange(x, y) && y != 0
    ensures GcdInRange(y, TruncRem(x, y))
  {
    if y == IntMin {
      assert Abs(x) < Abs(y);
      assert Abs(x) % Abs(y) == Abs(x);
    }
  }

  /** `umath::gcd`: the Euclidean loop on `int`.  Every intermediate value
      stays a defined `int`, and the result is the greatest common divisor. */
  method Gcd(a: int, b: int) returns (g: int)
    requires GcdInRange(a, b)
    ensures IsInt32(g)
    ensures g == EuclidGcd(a, b)
    ensures IsGcd(g, a, b)
    ensures b == 0 ==> g == Abs(a)
  {
    var x, y := a, b;
    while y != 0
      invariant GcdInRange(x, y)
      invariant EuclidGcd(x, y) == EuclidGcd(a, b)
      decreases Abs(y)
    {
      GcdStepInRange(x, y);
      var temp := y;
      y := Rem32(x, y);
      x := temp;
    }
    g := Abs32(x);
    EuclidGcdIsGcd(a, b);
  }

  lemma BezoutStep(a: int, b: int, q: int, r: int, x: int, y: int)
    requires a == b * q + r
    ensures a * y + b * (x - q * y) == b * x + r * y
  {
    assert a * y == b * q * y + r * y;
    assert b * (x - q * y) == b * x - b * q * y;
  }

  /** Bezout's identity: the result of Euclid's algorithm is an integer
      combination of its arguments. */
  lemma {:induction false} Bezout(a: int, b: int) returns (x: int, y: int)
    ensures a * x + b * y == EuclidGcd(a, b)
    decreases Abs(b)
  {
    if b == 0 {
      x, y := if a < 0 then -1 else 1, 0;
    } else {
      var q, r := TruncQuot(a, b), TruncRem(a, b);
      var x', y' := Bezout(b, r);
      BezoutStep(a, b, q, r, x', y');
      x, y := y', x' - q * y';
    }
  }

  /** The arguments for which the C++ `lcm` has no undefined behaviour:
      `a * b` must not overflow, and `std::abs(a * b)` must not see INT_MIN. */
  predicate LcmInRange(a: int, b: int) {
    IsInt32(a) && IsInt32(b) && IntMin < a * b <= IntMax
  }

  lemma MulCancel(g: int, x: int, y: int)
    requires g != 0 && g * x == g * y
    ensures x == y
  {
    assert g * (x - y) == 0;
  }

  lemma AbsScale(g: int, x: int)
    requires g > 0
    ensures Abs(g * x) == g * Abs(x)
  {
    if x < 0 {
      assert g * x == -(g * -x);
    }
  }

  lemma DivExact(g: int, k: int)
    requires g != 0
    ensures (g * k) / g == k
  {
    DividesMultiple(g, k);
    assert g * k == g * ((g * k) / g);
    MulCancel(g, k, (g * k) / g);
  }

  /** Arguments that keep `a * b` in range also keep `gcd(a, b)` defined. */
  lemma LcmArgumentsInGcdRange(a: int, b: int)
    requires LcmInRange(a, b) && a != 0 && b != 0
    ensures GcdInRange(a, b)
  {
    MulMagnitude(a, b);
    assert b * a == a * b;
    MulMagnitude(b, a);
  }

  lemma LcmQuotient(a: int, b: int, g: int)
    requires g > 0 && Divides(g, a)
    ensures g * (Abs(a * b) / g) == Abs(a * b)
    ensures Abs(a * b) / g == Abs(a / g * b)
  {
    var a' := a / g;
    assert a == g * a';
    assert a * b == g * (a' * b);
    AbsScale(g, a' * b);
    DivExact(g, Abs(a' * b));
  }

  /** With g dividing a and b, (a / g) * b is a multiple of both. */
  lemma ReducedProductIsCommonMultiple(a: int, b: int, g: int)
    requires g != 0 && Divides(g, a) && Divides(g, b)
    ensures Divides(a, Abs(a / g * b)) && Divides(b, Abs(a / g * b))
  {
    var a', b' := a / g, b / g;
    assert a == g * a';
    assert b == g * b';
    assert a' * b == a * b' by {
      assert a' * (g * b') == (g * a') * b';
    }
    var sign := if a' * b < 0 then -1 else 1;
    assert Abs(a' * b) == b * (a' * sign);
    DividesMultiple(b, a' * sign);
    assert Abs(a' * b) == a * (b' * sign);
    DividesMultiple(a, b' * sign);
  }

  lemma CofactorBounds(g: int, l: int, n: int)
    requires g >= 1 && g * l == n && n > 0
    ensures 0 < l <= n
  {
    assert g * l == (g - 1) * l + l;
  }

  lemma LcmFacts(a: int, b: int)
    requires LcmInRange(a, b) && a != 0 && b != 0
    ensures GcdInRange(a, b)
    ensures EuclidGcd(a, b) > 0
    ensures EuclidGcd(a, b) * (Abs(a * b) / EuclidGcd(a, b)) == Abs(a * b)
    ensures Divides(a, Abs(a * b) / EuclidGcd(a, b))
    ensures Divides(b, Abs(a * b) / EuclidGcd(a, b))
    ensures 0 < Abs(a * b) / EuclidGcd(a, b) <= Abs(a * b)
  {
    LcmArgumentsInGcdRange(a, b);
    MulMagnitude(a, b);
    var g := EuclidGcd(a, b);
    EuclidGcdIsGcd(a, b);
    assert g != 0;
    LcmQuotient(a, b, g);
    ReducedProductIsCommonMultiple(a, b, g);
    CofactorBounds(g, Abs(a * b) / g, Abs(a * b));
  }

  /** `umath::lcm`: zero when either argument is zero, otherwise
      |a * b| / gcd(a, b), a positive common multiple. */
  function Lcm(a: int, b: int): (r: int)
    requires LcmInRange(a, b)
    ensures IsInt32(r) && 0 <= r
    ensures r == 0 <==> (a == 0 || b == 0)
    ensures a != 0 && b != 0 ==> Divides(a, r) && Divides(b, r)
    ensures a != 0 && b != 0 ==> EuclidGcd(a, b) * r == Abs(a * b)
  {
    if a == 0 || b == 0 then
      0
    else
      LcmFacts(a, b);
      Abs(a * b) / EuclidGcd(a, b)
  }

  lemma BezoutMultiple(a: int, b: int, m: int, s: int, t: int, x: int, y: int)
    requires m == a * s && m == b * t
    ensures m * (a * x + b * y) == a * b * (t * x + s * y)
  {
    assert m * (a * x) == (b * t) * (a * x) == a * b * (t * x);
    assert m * (b * y) == (a * s) * (b * y) == a * b * (s * y);
  }

  lemma SignedAbs(p: int, k: int) returns (k': int)
    ensures p * k == Abs(p) * k'
  {
    k' := if p < 0 then -k else k;
    if p < 0 {
      assert p * k == (-p) * (-k);
    }
  }

  lemma CancelGcd(g: int, l: int, n: int, m: int, k: int)
    requires g != 0 && g * l == n && m * g == n * k
    ensures m == l * k
  {
    assert n * k == g * (l * k);
    MulCancel(g, m, l * k);
  }

  /** A common multiple of a and b, times their gcd, is a multiple of |a * b|. */
  lemma CommonMultipleTimesGcd(a: int, b: int, m: int) returns (k: int)
    requires a != 0 && b != 0 && Divides(a, m) && Divides(b, m)
    ensures m * EuclidGcd(a, b) == Abs(a * b) * k
  {
    var x, y := Bezout(a, b);
    var s, t := m / a, m / b;
    assert m == a * s;
    assert m == b * t;
    BezoutMultiple(a, b, m, s, t, x, y);
    k := SignedAbs(a * b, t * x + s * y);
  }

  /** The result of `lcm` divides every common multiple: it is the least one. */
  lemma LcmLeast(a: int, b: int, m: int)
    requires LcmInRange(a, b)
    requires Divides(a, m) && Divides(b, m)
    ensures Divides(Lcm(a, b), m)
  {
    if a != 0 && b != 0 {
      var g, l := EuclidGcd(a, b), Lcm(a, b);
      var k := CommonMultipleTimesGcd(a, b, m);
      CancelGcd(g, l, Abs(a * b), m, k);
      DividesMultiple(l, k);
    }
  }
}
