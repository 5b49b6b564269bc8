/** The statistics functions of umath.cpp over `const double* values, int size`,
    modelled as an array and a size the caller vouches for (`size <=
    values.Length`).  None of them writes to the caller's array: no method here
    has a `modifies` clause.  Sums are exact real sums. */
module Statistics {
  import opened Wrappers
  import opened Sorting
  import Algebra

  /** The sum of `s`, accumulated front to back as the loops do. */
  function Sum(s: seq<real>): real {
    if |s| == 0 then 0.0 else Sum(s[..|s| - 1]) + s[|s| - 1]
  }

  function MeanOf(s: seq<real>): real
    requires |s| > 0
  {
    Sum(s) / |s| as real
  }

  /** The sum of squared distances of the elements of `s` from `mu`. */
  function SquaredDeviations(s: seq<real>, mu: real): real {
    if |s| == 0 then 0.0
    else SquaredDeviations(s[..|s| - 1], mu) + (s[|s| - 1] - mu) * (s[|s| - 1] - mu)
  }

  lemma SquaredDeviationsStep(s: seq<real>, prefix: seq<real>, x: real, mu: real)
    requires s == prefix + [x]
    ensures SquaredDeviations(s, mu) == SquaredDeviations(prefix, mu) + (x - mu) * (x - mu)
  {
    assert s[..|s| - 1] == prefix;
  }

  /** Population variance: the mean squared distance from the mean. */
  function VarianceOf(s: seq<real>): real
    requires |s| > 0
  {
    SquaredDeviations(s, MeanOf(s)) / |s| as real
  }

  /** The least element of a non-empty sequence. */
  function Min(s: seq<real>): (m: real)
    requires |s| > 0
    ensures m in s
    ensures forall i :: 0 <= i < |s| ==> m <= s[i]
  {
    if |s| == 1 then s[0]
    else
      var init := s[..|s| - 1];
      var m' := Min(init);
      assert forall i :: 0 <= i < |s| - 1 ==> s[i] == init[i];
      assert m' in s by {
        var j :| 0 <= j < |init| && init[j] == m';
        assert s[j] == m';
      }
      if s[|s| - 1] < m' then s[|s| - 1] else m'
  }

  /** The greatest element of a non-empty sequence. */
  function Max(s: seq<real>): (m: real)
    requires |s| > 0
    ensures m in s
    ensures forall i :: 0 <= i < |s| ==> s[i] <= m
  {
    if |s| == 1 then s[0]
    else
      var init := s[..|s| - 1];
      var m' := Max(init);
      assert forall i :: 0 <= i < |s| - 1 ==> s[i] == init[i];
      assert m' in s by {
        var j :| 0 <= j < |init| && init[j] == m';
        assert s[j] == m';
      }
      if s[|s| - 1] > m' then s[|s| - 1] else m'
  }

  lemma {:induction false} WithinRange(s: seq<real>, x: real)
    requires x in s
    ensures Min(s) <= x <= Max(s)
  {
    var j :| 0 <= j < |s| && s[j] == x;
  }

  lemma SumStep(k: real, lo: real, hi: real, acc: real, x: real)
    requires k * lo <= acc <= k * hi && lo <= x <= hi
    ensures (k + 1.0) * lo <= acc + x <= (k + 1.0) * hi
  {
    assert (k + 1.0) * lo == k * lo + lo;
    assert (k + 1.0) * hi == k * hi + hi;
  }

  /** A sum of values that all lie in [lo, hi] lies in [n lo, n hi]. */
  lemma {:induction false} SumBounds(s: seq<real>, lo: real, hi: real)
    requires forall i :: 0 <= i < |s| ==> lo <= s[i] <= hi
    ensures |s| as real * lo <= Sum(s) <= |s| as real * hi
  {
    if |s| > 0 {
      var init := s[..|s| - 1];
      SumBounds(init, lo, hi);
      SumStep(|init| as real, lo, hi, Sum(init), s[|s| - 1]);
    }
  }

  lemma DivBounds(lo: real, hi: real, b: real, n: real)
    requires 0.0 < n && n * lo <= b <= n * hi
    ensures lo <= b / n <= hi
  {
    assert b / n * n == b;
  }

  /** The mean lies between the least and the greatest value. */
  lemma {:induction false} MeanWithinRange(s: seq<real>)
    requires |s| > 0
    ensures Min(s) <= MeanOf(s) <= Max(s)
  {
    var lo, hi, n, total := Min(s), Max(s), |s| as real, Sum(s);
    SumBounds(s, lo, hi);
    DivBounds(lo, hi, total, n);
    assert MeanOf(s) == total / n;
  }

  lemma {:induction false} SquaredDeviationsNonNegative(s: seq<real>, mu: real)
    ensures 0.0 <= SquaredDeviations(s, mu)
  {
    if |s| > 0 {
      SquaredDeviationsNonNegative(s[..|s| - 1], mu);
      var d := s[|s| - 1] - mu;
      assert 0.0 <= d * d;
    }
  }

  /** `mean`: rejects a non-positive size; otherwise the sum of the first
      `size` values divided by `size` (within their range by MeanWithinRange). */
  method Mean(values: array<real>, size: int) returns (r: Result<real>)
    requires size <= values.Length
    ensures size <= 0 ==> r == Err(InvalidArgument(SizeNotPositive))
    ensures size > 0 ==> r == Ok(MeanOf(values[..size]))
  {
    if size <= 0 {
      return Err(InvalidArgument(SizeNotPositive));
    }
    var sum := 0.0;
    var i := 0;
    while i < size
      invariant 0 <= i <= size
      invariant sum == Sum(values[..i])
    {
      assert values[..i + 1][..i] == values[..i];
      sum := sum + values[i];
      i := i + 1;
    }
    assert values[..i] == values[..size];
    return Ok(sum / size as real);
  }

  lemma QuotientNonNegative(x: real, n: real)
    requires 0.0 <= x && 0.0 < n
    ensures 0.0 <= x / n
  {
  }

  /** Dividing the squared deviations from the mean by the count gives the
      variance, and it is never negative. */
  lemma VarianceFromDeviations(s: seq<real>, mu: real, total: real)
    requires |s| > 0 && mu == MeanOf(s) && total == SquaredDeviations(s, mu)
    ensures VarianceOf(s) == total / |s| as real && 0.0 <= total / |s| as real
  {
    SquaredDeviationsNonNegative(s, mu);
    QuotientNonNegative(total, |s| as real);
  }

  /** `variance`: rejects a non-positive size; otherwise the population
      variance (dividing by `size`, not `size - 1`), never negative. */
  method Variance(values: array<real>, size: int) returns (r: Result<real>)
    requires size <= values.Length
    ensures size <= 0 ==> r == Err(InvalidArgument(SizeNotPositive))
    ensures size > 0 ==> r == Ok(VarianceOf(values[..size]))
    ensures size > 0 ==> 0.0 <= r.value
  {
    if size <= 0 {
      return Err(InvalidArgument(SizeNotPositive));
    }
    var mean := Mean(values, size);
    var mu := mean.value;
    var sum := 0.0;
    var i := 0;
    while i < size
      invariant 0 <= i <= size
      invariant sum == SquaredDeviations(values[..i], mu)
    {
      SquaredDeviationsStep(values[..i + 1], values[..i], values[i], mu);
      sum := sum + (values[i] - mu) * (values[i] - mu);
      i := i + 1;
    }
    assert values[..i] == values[..size];
    VarianceFromDeviations(values[..size], mu, sum);
    return Ok(sum / size as real);
  }

  /** `standardDeviation`: the square root of the variance; the size guard is
      the one of `variance`, whose exception passes through. */
  method StandardDeviation(values: array<real>, size: int, sqrt: real -> real) returns (r: Result<real>)
    requires size <= values.Length && Algebra.IsSquareRoot(sqrt)
    ensures size <= 0 ==> r == Err(InvalidArgument(SizeNotPositive))
    ensures size > 0 ==> r == Ok(sqrt(VarianceOf(values[..size])))
    ensures size > 0 ==> 0.0 <= r.value && r.value * r.value == VarianceOf(values[..size])
  {
    var v := Variance(values, size);
    if v.Err? {
      return Err(v.error);
    }
    return Ok(sqrt(v.value));
  }

  /** The middle element of a sorted sequence, or the mean of the two middle
      elements when the length is even. */
  function Middle(t: seq<real>): real
    requires |t| > 0
  {
    if |t| % 2 == 0 then (t[|t| / 2 - 1] + t[|t| / 2]) / 2.0 else t[|t| / 2]
  }

  /** The median is the same whichever sorted rearrangement it is read from. */
  lemma {:induction false} MedianIsWellDefined(t1: seq<real>, t2: seq<real>, s: seq<real>)
    requires |s| > 0
    requires SortedPermutationOf(t1, s) && SortedPermutationOf(t2, s)
    ensures |t1| > 0 && Middle(t1) == Middle(t2)
  {
    SortedPermutationUnique(t1, t2);
    assert |t1| == |multiset(s)|;
  }

  /** The median lies between the least and the greatest value. */
  lemma {:induction false} MedianWithinRange(t: seq<real>, s: seq<real>)
    requires |s| > 0 && SortedPermutationOf(t, s)
    ensures |t| > 0 && Min(s) <= Middle(t) <= Max(s)
  {
    assert |t| == |multiset(s)| == |s|;
    forall k | 0 <= k < |t|
      ensures Min(s) <= t[k] <= Max(s)
    {
      assert t[k] in multiset(s);
      WithinRange(s, t[k]);
    }
  }

  /** `median`: rejects a non-positive size; otherwise sorts a private copy of
      the first `size` values and takes the middle one, or the mean of the two
      middle ones for an even size. */
  method Median(values: array<real>, size: int) returns (r: Result<real>)
    requires size <= values.Length
    ensures size <= 0 ==> r == Err(InvalidArgument(SizeNotPositive))
    ensures size > 0 ==> r.Ok? && exists t :: SortedPermutationOf(t, values[..size]) && r.value == Middle(t)
    ensures size > 0 ==> Min(values[..size]) <= r.value <= Max(values[..size])
  {
    if size <= 0 {
      return Err(InvalidArgument(SizeNotPositive));
    }
    var sortedValues := new real[size];
    forall k | 0 <= k < size {
      sortedValues[k] := values[k];
    }
    assert sortedValues[..] == values[..size];
    SortAscending(sortedValues);
    if size % 2 == 0 {
      r := Ok((sortedValues[size / 2 - 1] + sortedValues[size / 2]) / 2.0);
    } else {
      r := Ok(sortedValues[size / 2]);
    }
    assert SortedPermutationOf(sortedValues[..], values[..size]) && r.value == Middle(sortedValues[..]);
    MedianWithinRange(sortedValues[..], values[..size]);
  }

  /** The two median examples: an even count averages the middle pair, an odd
      count picks the middle value, whatever the input order. */
  lemma {:induction false} MedianExamples(t: seq<real>, u: seq<real>)
    requires SortedPermutationOf(t, [1.0, 2.0, 3.0, 4.0])
    requires SortedPermutationOf(u, [3.0, 1.0, 2.0])
    ensures Middle(t) == 2.5 && Middle(u) == 2.0
  {
    SortedPermutationUnique(t, [1.0, 2.0, 3.0, 4.0]);
    assert multiset([3.0, 1.0, 2.0]) == multiset([1.0, 2.0, 3.0]);
    SortedPermutationUnique(u, [1.0, 2.0, 3.0]);
  }

  /** Some element of a non-empty set: the order in which a hash map hands
      out its keys is not specified, so the model commits to none. */
  method AnyKey(keys: set<real>) returns (key: real)
    requires keys != {}
    ensures key in keys
  {
    if forall x :: x !in keys {
      assert false;
    }
    key :| key in keys;
  }

  /** `mode`: rejects a non-positive size; otherwise counts every value, then
      scans the counts for a strictly larger one.  The scan order of the hash
      map is unspecified, so the result is any value of greatest count. */
  method Mode(values: array<real>, size: int) returns (r: Result<real>)
    requires size <= values.Length
    ensures size <= 0 ==> r == Err(InvalidArgument(SizeNotPositive))
    ensures size > 0 ==> r.Ok? && r.value in values[..size]
    ensures size > 0 ==> forall x :: multiset(values[..size])[x] <= multiset(values[..size])[r.value]
  {
    if size <= 0 {
      return Err(InvalidArgument(SizeNotPositive));
    }
    var frequency: map<real, nat> := map[];
    var i := 0;
    while i < size
      invariant 0 <= i <= size
      invariant forall x :: x in frequency <==> x in multiset(values[..i])
      invariant forall x :: x in frequency ==> frequency[x] == multiset(values[..i])[x]
    {
      assert values[..i + 1] == values[..i] + [values[i]];
      var v := values[i];
      frequency := frequency[v := if v in frequency then frequency[v] + 1 else 1];
      i := i + 1;
    }
    var modeValue := values[0];
    var maxCount := 0;
    var unvisited := frequency.Keys;
    while unvisited != {}
      invariant unvisited <= frequency.Keys
      invariant modeValue in values[..size]
      invariant maxCount == 0 || (modeValue in frequency && frequency[modeValue] == maxCount)
      invariant forall x :: x in frequency && x !in unvisited ==> frequency[x] <= maxCount
      decreases |unvisited|
    {
      var key := AnyKey(unvisited);
      if frequency[key] > maxCount {
        maxCount := frequency[key];
        modeValue := key;
      }
      unvisited := unvisited - {key};
    }
    assert values[0] in frequency;
    return Ok(modeValue);
  }
}
