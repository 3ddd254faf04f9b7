/** The two brute-force searches: the lower bound on the population success
    rate (`minSuccessFraction`), scanning thresholds downward from 1 - accuracy,
    and the least number of all-successful tests that certifies a target rate
    (`minTestLength`), scanning n upward. */
module BoundSearch {
  import opened Hypergeometric

  /** The i-th threshold the downward scan tries: 1 - accuracy - i * accuracy. */
  function Grid(accuracy: real, i: nat): real {
    1.0 - accuracy - i as real * accuracy
  }

  /** An upper bound on the number of positive grid values. */
  function ScanBound(accuracy: real): int
    requires accuracy > 0.0
  {
    (1.0 / accuracy).Floor
  }

  /** A positive grid value means the step is below 1 and the scan has room left. */
  lemma GridPositive(accuracy: real, i: nat)
    requires accuracy > 0.0 && Grid(accuracy, i) > 0.0
    ensures accuracy < 1.0
    ensures i + 1 <= ScanBound(accuracy)
  {
  }

  /** The grid descends. */
  lemma GridAntitone(accuracy: real, i: nat, j: nat)
    requires accuracy > 0.0 && i <= j
    ensures Grid(accuracy, j) <= Grid(accuracy, i)
    ensures i < j ==> Grid(accuracy, j) < Grid(accuracy, i)
  {
  }

  /** What the scan needs: a positive step, and a consistent observation as soon
      as it runs at all (it divides by the marginal). */
  predicate ScanDefined(k: int, n: int, N: int, accuracy: real) {
    accuracy > 0.0 && (accuracy < 1.0 ==> 0 <= k <= n <= N)
  }

  /** The scan's test `probKGivenS(k, n, N, s) / probK(k, n, N) > confidence`.
      The scan evaluates it only for consistent observations, where the
      denominator is positive. */
  predicate Confident(k: int, n: int, N: int, confidence: real, s: real) {
    0 <= k <= n <= N && Posterior(k, n, N, s) > confidence
  }

  /** The outcome of the scan from the i-th grid value on: the first grid value
      that passes, or 0 once the grid leaves the positive reals. */
  function ScanFrom(k: int, n: int, N: int, confidence: real, accuracy: real, i: nat): real
    requires ScanDefined(k, n, N, accuracy)
    decreases ScanBound(accuracy) - i
  {
    if Grid(accuracy, i) <= 0.0 then 0.0
    else if Confident(k, n, N, confidence, Grid(accuracy, i)) then Grid(accuracy, i)
    else
      GridPositive(accuracy, i);
      ScanFrom(k, n, N, confidence, accuracy, i + 1)
  }

  /** The value `minSuccessFraction` returns. */
  function MinFraction(k: int, n: int, N: int, confidence: real, accuracy: real): real
    requires ScanDefined(k, n, N, accuracy)
  {
    ScanFrom(k, n, N, confidence, accuracy, 0)
  }

  lemma {:induction false} ScanFromSpec(k: int, n: int, N: int, confidence: real, accuracy: real, i: nat)
    requires ScanDefined(k, n, N, accuracy)
    ensures var r := ScanFrom(k, n, N, confidence, accuracy, i);
      && (r == 0.0 || 0.0 < r <= Grid(accuracy, i))
      && (r != 0.0 ==> Confident(k, n, N, confidence, r))
      && (r != 0.0 ==> exists j: nat :: i <= j && Grid(accuracy, j) == r)
      && (forall j: nat :: i <= j && Grid(accuracy, j) > r ==>
            !Confident(k, n, N, confidence, Grid(accuracy, j)))
    decreases ScanBound(accuracy) - i
  {
    var r := ScanFrom(k, n, N, confidence, accuracy, i);
    if Grid(accuracy, i) <= 0.0 {
      forall j: nat | i <= j ensures Grid(accuracy, j) <= 0.0 {
        GridAntitone(accuracy, i, j);
      }
    } else if Confident(k, n, N, confidence, Grid(accuracy, i)) {
      forall j: nat | i <= j ensures Grid(accuracy, j) <= r {
        GridAntitone(accuracy, i, j);
      }
    } else {
      GridPositive(accuracy, i);
      ScanFromSpec(k, n, N, confidence, accuracy, i + 1);
      GridAntitone(accuracy, i, i + 1);
    }
  }

  /** `minSuccessFraction` returns 0 or a grid value in (0, 1 - accuracy] that
      passes the test, and every larger grid value, all of which the scan tried
      first, fails it. So the result is the largest passing grid value, or 0
      when there is none. */
  lemma MinFractionSpec(k: int, n: int, N: int, confidence: real, accuracy: real)
    requires ScanDefined(k, n, N, accuracy)
    ensures var r := MinFraction(k, n, N, confidence, accuracy);
      && (r == 0.0 || 0.0 < r <= 1.0 - accuracy)
      && (r != 0.0 ==> Confident(k, n, N, confidence, r))
      && (r != 0.0 ==> exists i: nat :: Grid(accuracy, i) == r)
      && (forall i: nat :: Grid(accuracy, i) > r ==>
            !Confident(k, n, N, confidence, Grid(accuracy, i)))
  {
    ScanFromSpec(k, n, N, confidence, accuracy, 0);
  }

  /** The test is monotone: every threshold below a passing one passes too, so
      the passing grid values are all those at or below the first hit, and a
      bisection would find the same value. */
  lemma ConfidentBelow(k: int, n: int, N: int, confidence: real, s: real, s': real)
    requires s' <= s && Confident(k, n, N, confidence, s)
    ensures Confident(k, n, N, confidence, s')
  {
    PosteriorAntitone(k, n, N, s', s);
  }

  /** `minSuccessFraction`: the downward scan in steps of accuracy. */
  method MinSuccessFraction(k: int, n: int, N: int, confidence: real, accuracy: real) returns (r: real)
    requires ScanDefined(k, n, N, accuracy) && (0 <= n <= N || N < n)
    ensures r == MinFraction(k, n, N, confidence, accuracy)
  {
    var s := 1.0 - accuracy;
    ghost var i: nat := 0;
    var pK := ProbK(k, n, N);
    while s > 0.0
      invariant s == Grid(accuracy, i)
      invariant ScanFrom(k, n, N, confidence, accuracy, i) == MinFraction(k, n, N, confidence, accuracy)
      decreases ScanBound(accuracy) - i
    {
      GridPositive(accuracy, i);
      MarginalPositiveIff(k, n, N);
      var pS := ProbKGivenS(k, n, N, s);
      if pS / pK > confidence {
        return s;
      }
      s := s - accuracy;
      i := i + 1;
    }
    return 0.0;
  }

  /** `minTestLength`: the least n in [1, N-1] whose all-successful outcome
      (k == n) certifies a lower bound of at least sLimit, or -1. */
  method MinTestLength(N: int, sLimit: real, confidence: real, accuracy: real) returns (r: int)
    requires N <= 1 || accuracy > 0.0
    ensures r == -1 || 1 <= r < N
    ensures r != -1 ==> MinFraction(r, r, N, confidence, accuracy) >= sLimit
    ensures forall m :: 1 <= m < N && (r == -1 || m < r) ==>
              MinFraction(m, m, N, confidence, accuracy) < sLimit
  {
    var n := 1;
    while n < N
      invariant 1 <= n <= if N < 1 then 1 else N
      invariant forall m :: 1 <= m < n ==> MinFraction(m, m, N, confidence, accuracy) < sLimit
    {
      var f := MinSuccessFraction(n, n, N, confidence, accuracy);
      if f >= sLimit {
        return n;
      }
      n := n + 1;
    }
    return -1;
  }
}
