# Hypergeometric bounds on a population success rate

A Dafny model of `test_sample_contamination.py`. That file is a chain of small
functions for sampling without replacement: the population has N items, K of
them successes, and k successes are seen in n draws. The chain runs as follows.

- `comb` is the integer binomial coefficient.
- `prob` is the hypergeometric point probability.
- `probK` and `probKGivenS` are unnormalised sums of `prob` over the unknown
  population success count K. `probKGivenS` keeps only the K with K/N >= s.
- `probSGivenK` is their ratio: the posterior probability that the population
  rate is at least s, under a uniform prior over the attainable K.
- `minSuccessFraction` scans s downward in steps of `accuracy`. It returns the
  first s whose posterior exceeds `confidence`, or 0.
- `minTestLength` scans n upward. It returns the first n whose all-success
  outcome (k = n) certifies a lower bound of at least `s_limit`, or -1.

The model has three modules, one per layer.

- `Combinatorics` (`combinatorics.dfy`) defines `Binom` by Pascal's rule. It
  proves symmetry, the absorption identity and the one-step identity behind
  the multiplicative loop. The `comb` loop is the method `Comb`, proved to
  return `Binom`.
- `Hypergeometric` (`hypergeometric.dfy`) has three parts:
  - the point probability `Hypergeom`;
  - the sums `SumOver`, `Marginal` (`probK`) and `Joint` (`probKGivenS`), as
    recursive functions over the K range;
  - the ratio `Posterior` (`probSGivenK`).

  Each is implemented by a method that mirrors the source's loop or
  expression: `Prob`, `ProbK`, `ProbKGivenS` and `ProbSGivenK`. The methods
  are proved against these functions.
- `BoundSearch` (`bound_search.dfy`) has the threshold grid, the scan's test
  `Confident` and the spec function `ScanFrom`/`MinFraction`. It also has the
  methods `MinSuccessFraction` and `MinTestLength`.

All numbers are exact: integers are unbounded and the source's floats are
`real`s, which are exact rationals.

## Model

| member | source | states |
|---|---|---|
| Combinatorics.Binom | test_sample_contamination.py:12 | C(n, k) is positive exactly when 0 <= k <= n, and 0 when k > n, n < 0 or k < 0 |
| Combinatorics.BinomSymmetric | test_sample_contamination.py:20 | C(n, k) == C(n, n - k), which is why running only min(k, N-k) steps is enough |
| Combinatorics.BinomAbsorb | test_sample_contamination.py:21 | absorption identity k * C(n, k) == n * C(n-1, k-1) for 1 <= k <= n |
| Combinatorics.BinomStep | test_sample_contamination.py:21 | C(n, j) * (n - j) == C(n, j+1) * (j + 1), so each loop step turns C(n, j) into C(n, j+1) |
| Combinatorics.ExactDivision | test_sample_contamination.py:21 | a multiple of d floor-divided by d leaves no remainder: the `//` of the loop is exact |
| Combinatorics.BinomProductBound | test_sample_contamination.py:30 | C(K, k) * C(N-K, n-k) <= C(N, n), one term of Vandermonde's sum |
| Combinatorics.Comb | test_sample_contamination.py:5-22 | `comb` returns C(N, k); it returns 0 exactly when k > N, N < 0 or k < 0, and never fails; the result equals C(N, N-k); the loop keeps val == C(N, j) |
| Combinatorics.CombExamples | test_sample_contamination.py:5-22 | C(5, 2) == 10, C(0, 0) == 1, C(10, 0) == 1 |
| Hypergeometric.HypergeomBounds | test_sample_contamination.py:30 | given 0 <= n <= N, the point probability lies in [0, 1]; it is positive exactly when 0 <= k <= K and 0 <= n-k <= N-K, so it is 0 when K < k or N-K < n-k |
| Hypergeometric.Prob | test_sample_contamination.py:24-30 | `prob` equals C(K, k) * C(N-K, n-k) / C(N, n), built from three `comb` results; it requires C(N, n) != 0, i.e. 0 <= n <= N |
| Hypergeometric.SumNonnegative | test_sample_contamination.py:38-41 | a sum of point probabilities over any K range is >= 0 |
| Hypergeometric.SumDropPrefix | test_sample_contamination.py:51-55 | starting the K range later never increases the sum |
| Hypergeometric.SumPositive | test_sample_contamination.py:38-41 | one positive term in range makes the sum positive |
| Hypergeometric.SumZero | test_sample_contamination.py:38-41 | a range of zero terms sums to 0 |
| Hypergeometric.MarginalPositiveIff | test_sample_contamination.py:32-41 | the `probK` sum is >= 0; it is > 0 if and only if 0 <= k <= n <= N, which is exactly when `probSGivenK` can divide by it |
| Hypergeometric.ProbK | test_sample_contamination.py:32-41 | `probK` returns the sum of `prob` over K in [k, N-(n-k)], accumulated in ascending K; for n > N the range is empty and nothing is divided |
| Hypergeometric.Ceil | test_sample_contamination.py:51 | `math.ceil`: the result c satisfies c - 1 < x <= c |
| Hypergeometric.CeilMonotone | test_sample_contamination.py:51 | ceil is monotone |
| Hypergeometric.LowerIndex | test_sample_contamination.py:51 | S = max(k, ceil(s*N)) is the least integer with S >= k and S >= s*N |
| Hypergeometric.JointBounds | test_sample_contamination.py:43-55 | 0 <= probKGivenS(k, n, N, s) <= probK(k, n, N), with equality when ceil(s*N) <= k |
| Hypergeometric.JointAntitone | test_sample_contamination.py:51-55 | probKGivenS is non-increasing in s |
| Hypergeometric.ProbKGivenS | test_sample_contamination.py:43-55 | `probKGivenS` returns the sum of `prob` over K in [max(k, ceil(s*N)), N-(n-k)], accumulated in ascending K |
| Hypergeometric.PosteriorBounds | test_sample_contamination.py:57-63 | for 0 <= k <= n <= N the posterior lies in [0, 1], and it is 1 when ceil(s*N) <= k |
| Hypergeometric.PosteriorAntitone | test_sample_contamination.py:57-63 | the posterior is non-increasing in s |
| Hypergeometric.ProbSGivenK | test_sample_contamination.py:57-63 | `probSGivenK` returns probKGivenS / probK; its requires 0 <= k <= n <= N is exactly "probK is nonzero" |
| BoundSearch.GridPositive | test_sample_contamination.py:86-91 | while the scanned s is positive, accuracy < 1 and at most floor(1/accuracy) steps have been taken, so the scan stops |
| BoundSearch.GridAntitone | test_sample_contamination.py:91 | the scanned values 1 - accuracy - i*accuracy strictly decrease |
| BoundSearch.ScanFromSpec | test_sample_contamination.py:86-92 | scanning from grid index i yields 0 or a passing grid value at index >= i and <= the i-th value, and every grid value from index i on that is larger than the result fails the test |
| BoundSearch.MinFractionSpec | test_sample_contamination.py:86-92 | `minSuccessFraction` returns 0 or a grid value in (0, 1 - accuracy] whose posterior exceeds the confidence; every larger grid value, each tested before it, fails; so it is the largest passing grid value, or 0 if none passes |
| BoundSearch.ConfidentBelow | test_sample_contamination.py:89 | if threshold s passes the test, every s' <= s passes too, so bisection would give the same result |
| BoundSearch.MinSuccessFraction | test_sample_contamination.py:65-92 | the downward `while s > 0` scan with early return yields MinFraction, the first-hit-or-0 value above |
| BoundSearch.MinTestLength | test_sample_contamination.py:94-108 | returns -1 or some n in [1, N-1]; a returned n has minSuccessFraction(n, n, N) >= s_limit; every smaller n >= 1 fails; if -1, every n in [1, N-1] fails |

## Left out

- Floating point: values are exact `real`s. The `* 1.` conversion, rounding in
  the accumulated sums, and the drift of `s -= accuracy` are not modelled. The
  i-th scanned threshold is exactly 1 - accuracy - i*accuracy.
- The `int(N)` / `int(k)` coercion in `comb`: the model takes integer
  arguments.
- Division by zero is not modelled as a runtime fault. Each member instead
  requires what keeps the source's divisions defined:
  - `Prob` requires 0 <= n <= N.
  - The sums require that 0 <= n <= N or that their K range is empty.
  - `ProbSGivenK` requires that probK is nonzero.
  - `MinSuccessFraction` requires that probK is nonzero whenever its scan runs.
- MinSuccessFraction: requires accuracy > 0. With accuracy <= 0 the source
  does not step downward. It then stops only if one of its non-decreasing
  thresholds passes, and otherwise loops forever.
- MinTestLength: requires accuracy > 0 when N >= 2, for the same reason.
- Default argument values (s = 0.9, confidence = 0.95, accuracy = 0.01,
  s_limit = 0.95) are not modelled: every argument is explicit.
- Upper bounds and normalisation of the unnormalised sums `probK` and
  `probKGivenS` are not modelled. The source documents that they are not
  normalised.
- Concrete confidence levels for particular large N, and running time, are
  not modelled.
