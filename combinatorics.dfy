/** The private `factorial` helper and `combination` / `permutation` of
    umath.cpp.  The source computes in `double`; the model computes exactly,
    so the quotients below are exact rationals. */
module Combinatorics {
  import opened Wrappers
  import opened Int32

  /** n! = 1 * 2 * ... * n. */
  function Fact(n: nat): nat {
    if n == 0 then 1 else n * Fact(n - 1)
  }

  lemma {:induction false} FactPositive(n: nat)
    ensures Fact(n) >= 1
  {
    if n > 0 {
      FactPositive(n - 1);
      assert Fact(n) == n * Fact(n - 1);
    }
  }

  /** `factorial`: rejects a negative argument, otherwise multiplies
      2, 3, ..., n into a running product. */
  method Factorial(n: int) returns (r: Result<nat>)
    requires n < IntMax
    ensures n < 0 ==> r == Err(InvalidArgument(FactorialNegative))
    ensures n >= 0 ==> r == Ok(Fact(n))
  {
    if n < 0 {
      return Err(InvalidArgument(FactorialNegative));
    }
    var result := 1;
    var i := 2;
    while i <= n
      invariant 2 <= i <= if n < 2 then 2 else n + 1
      invariant result == Fact(i - 1)
    {
      result := result * i;
      i := i + 1;
    }
    return Ok(result);
  }

  /** Pascal's triangle: the number of k-element subsets of an n-element set. */
  function Binomial(n: nat, k: nat): nat {
    if k == 0 then 1
    else if n == 0 then 0
    else Binomial(n - 1, k - 1) + Binomial(n - 1, k)
  }

  lemma {:induction false} BinomialBeyond(n: nat, k: nat)
    requires k > n
    ensures Binomial(n, k) == 0
  {
    if n > 0 {
      BinomialBeyond(n - 1, k - 1);
      BinomialBeyond(n - 1, k);
    }
  }

  lemma {:induction false} BinomialDiagonal(n: nat)
    ensures Binomial(n, n) == 1
  {
    if n > 0 {
      BinomialDiagonal(n - 1);
      BinomialBeyond(n - 1, n);
    }
  }

  // Ring identities kept apart from Fact, so that the solver sees no
  // unfoldings while it multiplies out.

  lemma PascalArith(n: int, k: int, left: int, right: int, a: int, b: int, f: int)
    requires left * a * ((n - k) * b) == f
    requires right * (k * a) * b == f
    ensures (left + right) * (k * a) * ((n - k) * b) == n * f
  {
    assert (left + right) * (k * a) * ((n - k) * b)
        == k * (left * a * ((n - k) * b)) + (n - k) * (right * (k * a) * b);
  }

  lemma MulAssoc(a: int, b: int, c: int)
    ensures a * b * c == a * (b * c)
  {
  }

  lemma CancelPositive(x: int, y: int, d: int)
    requires d > 0 && x * d == y * d
    ensures x == y
  {
    assert (x - y) * d == 0;
  }

  lemma ExactQuotient(num: nat, a: nat, b: nat, q: nat)
    requires a > 0 && b > 0 && q * a * b == num
    ensures a * b > 0
    ensures num as real / (a * b) as real == q as real
  {
    MulAssoc(q, a, b);
    assert (q * (a * b)) as real == q as real * (a * b) as real;
  }

  /** One step of Pascal's rule, multiplied out: the two cofactor identities
      for n - 1 add up to the one for n. */
  lemma PascalStep(n: nat, k: nat, left: nat, right: nat)
    requires 0 < k < n
    requires left * Fact(k - 1) * Fact(n - k) == Fact(n - 1)
    requires right * Fact(k) * Fact(n - 1 - k) == Fact(n - 1)
    ensures (left + right) * Fact(k) * Fact(n - k) == Fact(n)
  {
    var a, b, f := Fact(k - 1), Fact(n - 1 - k), Fact(n - 1);
    assert Fact(k) == k * a;
    assert Fact(n - k) == (n - k) * b;
    assert Fact(n) == n * f;
    PascalArith(n, k, left, right, a, b, f);
  }

  /** n! / (k! (n-k)!) is the whole number Binomial(n, k). */
  lemma {:induction false} BinomialTimesFactorials(n: nat, k: nat)
    requires k <= n
    ensures Binomial(n, k) * Fact(k) * Fact(n - k) == Fact(n)
  {
    if k == 0 {
    } else if k == n {
      BinomialDiagonal(n);
    } else {
      BinomialTimesFactorials(n - 1, k - 1);
      BinomialTimesFactorials(n - 1, k);
      PascalStep(n, k, Binomial(n - 1, k - 1), Binomial(n - 1, k));
    }
  }

  /** n (n-1) ... (n-k+1): the number of ordered selections of k out of n. */
  function FallingFactorial(n: nat, k: nat): nat
    requires k <= n
  {
    if k == 0 then 1 else n * FallingFactorial(n - 1, k - 1)
  }

  lemma {:induction false} FallingTimesFactorial(n: nat, k: nat)
    requires k <= n
    ensures FallingFactorial(n, k) * Fact(n - k) == Fact(n)
  {
    if k > 0 {
      FallingTimesFactorial(n - 1, k - 1);
      var p, q := FallingFactorial(n - 1, k - 1), Fact(n - k);
      assert n - 1 - (k - 1) == n - k;
      assert p * q == Fact(n - 1);
      MulAssoc(n, p, q);
    }
  }

  /** The argument guard shared by `combination` and `permutation`. */
  predicate InvalidChoice(n: int, k: int) {
    k > n || n < 0 || k < 0
  }

  /** `combination`: n! / (k! (n-k)!), which in exact arithmetic is the
      binomial coefficient. */
  function Combination(n: int, k: int): (r: Result<real>)
    ensures InvalidChoice(n, k) ==> r == Err(InvalidArgument(InvalidCombination))
    ensures !InvalidChoice(n, k) ==> r == Ok(Binomial(n, k) as real)
  {
    if InvalidChoice(n, k) then
      Err(InvalidArgument(InvalidCombination))
    else
      FactPositive(k);
      FactPositive(n - k);
      BinomialTimesFactorials(n, k);
      ExactQuotient(Fact(n), Fact(k), Fact(n - k), Binomial(n, k));
      Ok(Fact(n) as real / (Fact(k) * Fact(n - k)) as real)
  }

  /** `permutation`: n! / (n-k)!, which in exact arithmetic is the falling
      factorial n (n-1) ... (n-k+1). */
  function Permutation(n: int, k: int): (r: Result<real>)
    ensures InvalidChoice(n, k) ==> r == Err(InvalidArgument(InvalidPermutation))
    ensures !InvalidChoice(n, k) ==> r == Ok(FallingFactorial(n, k) as real)
  {
    if InvalidChoice(n, k) then
      Err(InvalidArgument(InvalidPermutation))
    else
      FactPositive(n - k);
      FallingTimesFactorial(n, k);
      ExactQuotient(Fact(n), 1, Fact(n - k), FallingFactorial(n, k));
      Ok(Fact(n) as real / Fact(n - k) as real)
  }

  /** Choosing none or all of n things can be done one way. */
  lemma CombinationEdges(n: int)
    requires n >= 0
    ensures Combination(n, 0) == Ok(1.0)
    ensures Combination(n, n) == Ok(1.0)
  {
    BinomialDiagonal(n);
  }

  /** Choosing k things is choosing the n - k left behind. */
  lemma {:induction false} BinomialSymmetric(n: nat, k: nat)
    requires k <= n
    ensures Binomial(n, k) == Binomial(n, n - k)
  {
    BinomialTimesFactorials(n, k);
    BinomialTimesFactorials(n, n - k);
    FactPositive(k);
    FactPositive(n - k);
    var x, y, a, b := Binomial(n, k), Binomial(n, n - k), Fact(k), Fact(n - k);
    assert n - (n - k) == k;
    assert x * a * b == y * b * a;
    MulAssoc(x, a, b);
    MulAssoc(y, b, a);
    assert x * (a * b) == y * (a * b);
    CancelPositive(x, y, a * b);
  }

  lemma CombinationSymmetric(n: int, k: int)
    requires 0 <= k <= n
    ensures Combination(n, k) == Combination(n, n - k)
  {
    BinomialSymmetric(n, k);
  }

  /** An ordered selection is an unordered one followed by an ordering of it. */
  lemma FallingIsBinomialTimesFactorial(n: nat, k: nat)
    requires k <= n
    ensures FallingFactorial(n, k) == Binomial(n, k) * Fact(k)
  {
    BinomialTimesFactorials(n, k);
    FallingTimesFactorial(n, k);
    FactPositive(n - k);
    var b, f, p, c := Binomial(n, k), Fact(k), FallingFactorial(n, k), Fact(n - k);
    assert b * f * c == Fact(n);
    assert p * c == Fact(n);
    CancelPositive(b * f, p, c);
  }

  lemma RealProduct(b: nat, f: nat)
    ensures (b * f) as real == b as real * f as real
  {
  }

  lemma PermutationIsCombinationTimesFactorial(n: int, k: int)
    requires 0 <= k <= n
    ensures Permutation(n, k).value == Combination(n, k).value * Fact(k) as real
  {
    var b, f := Binomial(n, k), Fact(k);
    var c, p := Combination(n, k), Permutation(n, k);
    assert c == Ok(b as real);
    FallingIsBinomialTimesFactorial(n, k);
    assert p == Ok((b * f) as real);
    RealProduct(b, f);
  }
}
