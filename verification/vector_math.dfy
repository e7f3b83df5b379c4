/** The free vector helpers of CNN.cpp: dot, cost, sum and the one-hot derivative vector. */
module VectorMath {
  import opened Wrappers

  /** A zero vector of length n, as built by `vec_t v(n, 0)`. */
  function Zeros(n: nat): (z: seq<real>)
    ensures |z| == n
    ensures forall i :: 0 <= i < n ==> z[i] == 0.0
  {
    seq(n, _ => 0.0)
  }

  // ---------------------------------------------------------------------------
  // Reference definitions: sums written from the front, by structural recursion.

  /** The mathematical sum of a vector. */
  function SumOf(s: seq<real>): real
  {
    if |s| == 0 then 0.0 else s[0] + SumOf(s[1..])
  }

  /** The mathematical sum of pairwise products. */
  function SumProducts(a: seq<real>, b: seq<real>): real
    requires |a| == |b|
  {
    if |a| == 0 then 0.0 else a[0] * b[0] + SumProducts(a[1..], b[1..])
  }

  function Square(x: real): real
  {
    x * x
  }

  /** The squared differences (a[i] - b[i])^2, the vector `cost` builds with `transform`. */
  function SquaredDiffs(a: seq<real>, b: seq<real>): (d: seq<real>)
    requires |a| == |b|
    ensures |d| == |a|
  {
    seq(|a|, i requires 0 <= i < |a| => Square(a[i] - b[i]))
  }

  // ---------------------------------------------------------------------------
  // The standard-library folds the C++ code calls, modelled left to right.

  /** `std::accumulate(s.begin(), s.end(), init)`. */
  function Accumulate(s: seq<real>, init: real): real
  {
    if |s| == 0 then init else Accumulate(s[1..], init + s[0])
  }

  /** `std::inner_product(a.begin(), a.end(), b.begin(), init)`. */
  function InnerProduct(a: seq<real>, b: seq<real>, init: real): real
    requires |a| == |b|
  {
    if |a| == 0 then init else InnerProduct(a[1..], b[1..], init + a[0] * b[0])
  }

  /** The left fold of `accumulate` adds the same total as the reference sum. */
  lemma {:induction false} AccumulateIsSum(s: seq<real>, init: real)
    ensures Accumulate(s, init) == init + SumOf(s)
  {
    if |s| > 0 {
      AccumulateIsSum(s[1..], init + s[0]);
    }
  }

  /** The left fold of `inner_product` adds the same total as the reference sum of products. */
  lemma {:induction false} InnerProductIsSumProducts(a: seq<real>, b: seq<real>, init: real)
    requires |a| == |b|
    ensures InnerProduct(a, b, init) == init + SumProducts(a, b)
  {
    if |a| > 0 {
      InnerProductIsSumProducts(a[1..], b[1..], init + a[0] * b[0]);
    }
  }

  // ---------------------------------------------------------------------------
  // The helpers themselves.

  /** `dot(a, b)`: throws on a length mismatch, otherwise the sum of pairwise products. */
  function Dot(a: seq<real>, b: seq<real>): (r: Result<real>)
    ensures r.Failure? <==> |a| != |b|
    ensures r.Failure? ==> r.error == DimensionMismatch
    ensures r.Success? ==> r.value == SumProducts(a, b)
  {
    if |a| != |b| then Failure(DimensionMismatch)
    else
      InnerProductIsSumProducts(a, b, 0.0);
      Success(InnerProduct(a, b, 0.0))
  }

  /** `cost(a, b)`: throws on a length mismatch, otherwise the squared error, which is
      never negative and is zero when the two vectors are equal. */
  function Cost(a: seq<real>, b: seq<real>): (r: Result<real>)
    ensures r.Failure? <==> |a| != |b|
    ensures r.Failure? ==> r.error == DimensionMismatch
    ensures r.Success? ==> r.value == SumOf(SquaredDiffs(a, b))
    ensures r.Success? ==> r.value >= 0.0
    ensures r.Success? && a == b ==> r.value == 0.0
  {
    if |a| != |b| then Failure(DimensionMismatch)
    else
      var d := SquaredDiffs(a, b);
      AccumulateIsSum(d, 0.0);
      SquaredErrorNonNegative(a, b);
      Success(Accumulate(d, 0.0))
  }

  /** `sum(a)`: the accumulated total, with no failure case. */
  function Sum(a: seq<real>): (r: real)
    ensures r == SumOf(a)
  {
    AccumulateIsSum(a, 0.0);
    Accumulate(a, 0.0)
  }

  /** The derivative of the activation as the code computes it: the activation is applied
      again to its argument, so df(v) = sigma(v) * (1 - sigma(v)). For an activation with
      values in [0, 1], as the sigmoid's are, it lies in [0, 1/4]. */
  function Df(sigma: real -> real, x: real): (d: real)
    ensures 0.0 <= sigma(x) <= 1.0 ==> 0.0 <= d <= 0.25
  {
    LogisticSlopeBound(sigma(x));
    sigma(x) * (1.0 - sigma(x))
  }

  /** s * (1 - s) = 1/4 - (s - 1/2)^2, so it lies in [0, 1/4] for s in [0, 1]. */
  lemma LogisticSlopeBound(s: real)
    ensures s * (1.0 - s) <= 0.25
    ensures 0.0 <= s <= 1.0 ==> 0.0 <= s * (1.0 - s)
  {
    SquareNonNegative(s - 0.5);
    assert s * (1.0 - s) == 0.25 - Square(s - 0.5);
    if 0.0 <= s <= 1.0 {
      ProductNonNegativeReal(s, 1.0 - s);
    }
  }

  /** The sign rule the bound needs and the solver does not apply to `s * (1 - s)` unaided. */
  lemma ProductNonNegativeReal(a: real, b: real)
    requires a >= 0.0 && b >= 0.0
    ensures a * b >= 0.0
  {
  }

  /** `df(y, i)`: a vector as long as y that is zero except at index i. */
  function DfAt(sigma: real -> real, y: seq<real>, i: nat): (v: seq<real>)
    requires i < |y|
    ensures |v| == |y|
    ensures v[i] == Df(sigma, y[i])
    ensures forall j :: 0 <= j < |y| && j != i ==> v[j] == 0.0
  {
    Zeros(|y|)[i := Df(sigma, y[i])]
  }

  // ---------------------------------------------------------------------------
  // Properties of the reference sums.

  /** A sum of non-negative entries is non-negative. */
  lemma {:induction false} SumOfNonNegative(s: seq<real>)
    requires forall i :: 0 <= i < |s| ==> s[i] >= 0.0
    ensures SumOf(s) >= 0.0
  {
    if |s| > 0 {
      SumOfNonNegative(s[1..]);
    }
  }

  /** The squared error is never negative, and it is zero when the vectors are equal. */
  lemma SquaredErrorNonNegative(a: seq<real>, b: seq<real>)
    requires |a| == |b|
    ensures SumOf(SquaredDiffs(a, b)) >= 0.0
    ensures a == b ==> SumOf(SquaredDiffs(a, b)) == 0.0
  {
    var d := SquaredDiffs(a, b);
    forall i | 0 <= i < |a|
      ensures d[i] >= 0.0
      ensures a == b ==> d[i] == 0.0
    {
      SquareNonNegative(a[i] - b[i]);
      if a == b {
        assert d[i] == Square(0.0);
      }
    }
    SumOfNonNegative(d);
    if a == b {
      SumOfZeros(d);
    }
  }

  /** A square is never negative. */
  lemma SquareNonNegative(x: real)
    ensures Square(x) >= 0.0
  {
    assert x * x >= 0.0;
  }

  /** The sum of a vector that is zero except at one index is the entry at that index. */
  lemma {:induction false} SumOfSingleton(s: seq<real>, i: nat)
    requires i < |s|
    requires forall j :: 0 <= j < |s| && j != i ==> s[j] == 0.0
    ensures SumOf(s) == s[i]
  {
    if i == 0 {
      SumOfZeros(s[1..]);
    } else {
      SumOfSingleton(s[1..], i - 1);
      assert s[0] == 0.0;
    }
  }

  lemma {:induction false} SumOfZeros(s: seq<real>)
    requires forall j :: 0 <= j < |s| ==> s[j] == 0.0
    ensures SumOf(s) == 0.0
  {
    if |s| > 0 {
      SumOfZeros(s[1..]);
    }
  }

  /** Summing `df(y, i)` recovers the single derivative it carries. */
  lemma SumOfDfAt(sigma: real -> real, y: seq<real>, i: nat)
    requires i < |y|
    ensures Sum(DfAt(sigma, y, i)) == Df(sigma, y[i])
  {
    SumOfSingleton(DfAt(sigma, y, i), i);
  }

  /** A dot product with an all-zero vector is zero. */
  lemma {:induction false} SumProductsZeroLeft(a: seq<real>, b: seq<real>)
    requires |a| == |b|
    requires forall j :: 0 <= j < |a| ==> a[j] == 0.0
    ensures SumProducts(a, b) == 0.0
  {
    if |a| > 0 {
      SumProductsZeroLeft(a[1..], b[1..]);
    }
  }
}
