/** The hypergeometric point probability (`prob`), its sums over the attainable
    population success counts K (`probK`, `probKGivenS`) and their ratio
    (`probSGivenK`). Values are exact rationals (`real`). */
module Hypergeometric {
  import opened Combinatorics

  /** Probability of k successes in n draws without replacement from N items
      of which K are successes: C(K, k) * C(N-K, n-k) / C(N, n). */
  function Hypergeom(k: int, n: int, K: int, N: int): real
    requires 0 <= n <= N
  {
    (Binom(K, k) * Binom(N - K, n - k)) as real / Binom(N, n) as real
  }

  lemma RatioBounds(x: real, y: real)
    requires 0.0 <= x <= y && y > 0.0
    ensures 0.0 <= x / y <= 1.0
    ensures x / y > 0.0 <==> x > 0.0
    ensures x / y == 1.0 <==> x == y
  {
  }

  /** The point probability is a probability, and it vanishes exactly when the
      observation cannot be drawn from the population (K < k or N-K < n-k). */
  lemma HypergeomBounds(k: int, n: int, K: int, N: int)
    requires 0 <= n <= N
    ensures 0.0 <= Hypergeom(k, n, K, N) <= 1.0
    ensures Hypergeom(k, n, K, N) > 0.0 <==> 0 <= k <= K && 0 <= n - k <= N - K
  {
    BinomProductBound(K, N - K, k, n);
    RatioBounds((Binom(K, k) * Binom(N - K, n - k)) as real, Binom(N, n) as real);
  }

  /** `prob`: the three binomial coefficients come from the `comb` loop. */
  method Prob(k: int, n: int, K: int, N: int) returns (p: real)
    requires 0 <= n <= N
    ensures p == Hypergeom(k, n, K, N)
  {
    var a := Comb(K, k);
    var b := Comb(N - K, n - k);
    var c := Comb(N, n);
    p := (a * b) as real / c as real;
  }

  /** The sum of Hypergeom(k, n, K, N) over lo <= K < hi, added in ascending K.
      An empty range divides by nothing, so it needs no condition on n. */
  function SumOver(k: int, n: int, N: int, lo: int, hi: int): real
    requires 0 <= n <= N || hi <= lo
    decreases hi - lo
  {
    if hi <= lo then 0.0 else SumOver(k, n, N, lo, hi - 1) + Hypergeom(k, n, hi - 1, N)
  }

  lemma {:induction false} SumNonnegative(k: int, n: int, N: int, lo: int, hi: int)
    requires 0 <= n <= N || hi <= lo
    ensures SumOver(k, n, N, lo, hi) >= 0.0
    decreases hi - lo
  {
    if lo < hi {
      SumNonnegative(k, n, N, lo, hi - 1);
      HypergeomBounds(k, n, hi - 1, N);
    }
  }

  /** Starting the sum later drops nonnegative terms only. */
  lemma {:induction false} SumDropPrefix(k: int, n: int, N: int, lo: int, lo': int, hi: int)
    requires 0 <= n <= N || hi <= lo
    requires lo <= lo'
    ensures SumOver(k, n, N, lo', hi) <= SumOver(k, n, N, lo, hi)
    decreases hi - lo
  {
    if hi <= lo' {
      SumNonnegative(k, n, N, lo, hi);
    } else {
      SumDropPrefix(k, n, N, lo, lo', hi - 1);
    }
  }

  /** One positive term makes the sum positive. */
  lemma {:induction false} SumPositive(k: int, n: int, N: int, lo: int, hi: int, K: int)
    requires 0 <= n <= N
    requires lo <= K < hi && Hypergeom(k, n, K, N) > 0.0
    ensures SumOver(k, n, N, lo, hi) > 0.0
    decreases hi - lo
  {
    HypergeomBounds(k, n, hi - 1, N);
    if K == hi - 1 {
      SumNonnegative(k, n, N, lo, hi - 1);
    } else {
      SumPositive(k, n, N, lo, hi - 1, K);
    }
  }

  /** A sum of zero terms is zero. */
  lemma {:induction false} SumZero(k: int, n: int, N: int, lo: int, hi: int)
    requires 0 <= n <= N
    requires forall K :: lo <= K < hi ==> Hypergeom(k, n, K, N) == 0.0
    ensures SumOver(k, n, N, lo, hi) == 0.0
    decreases hi - lo
  {
    if lo < hi {
      SumZero(k, n, N, lo, hi - 1);
    }
  }

  /** Exclusive end of the attainable K range: N - K must leave n - k failures. */
  function Upper(k: int, n: int, N: int): int {
    N - (n - k) + 1
  }

  /** The sum behind `probK`: every K in [k, N-(n-k)]. When n > N the range is
      empty, so nothing is divided. */
  function Marginal(k: int, n: int, N: int): real
    requires 0 <= n <= N || N < n
  {
    SumOver(k, n, N, k, Upper(k, n, N))
  }

  /** The unnormalised marginal is nonnegative, and it is positive exactly when
      the observation is consistent: 0 <= k <= n <= N. */
  lemma MarginalPositiveIff(k: int, n: int, N: int)
    requires 0 <= n <= N || N < n
    ensures Marginal(k, n, N) >= 0.0
    ensures Marginal(k, n, N) > 0.0 <==> 0 <= k <= n <= N
  {
    SumNonnegative(k, n, N, k, Upper(k, n, N));
    if 0 <= k <= n <= N {
      HypergeomBounds(k, n, k, N);
      SumPositive(k, n, N, k, Upper(k, n, N), k);
    } else if n <= N {
      forall K | k <= K < Upper(k, n, N) ensures Hypergeom(k, n, K, N) == 0.0 {
        HypergeomBounds(k, n, K, N);
      }
      SumZero(k, n, N, k, Upper(k, n, N));
    }
  }

  /** `probK`: accumulates the point probabilities in ascending K. */
  method ProbK(k: int, n: int, N: int) returns (p: real)
    requires 0 <= n <= N || N < n
    ensures p == Marginal(k, n, N)
  {
    p := 0.0;
    var hi := N - (n - k) + 1;
    var K := k;
    while K < hi
      invariant k <= K && (K <= hi || K == k)
      invariant p == SumOver(k, n, N, k, K)
    {
      var q := Prob(k, n, K, N);
      p := p + q;
      K := K + 1;
    }
  }

  /** `math.ceil`: the least integer at or above x. */
  function Ceil(x: real): (c: int)
    ensures c as real - 1.0 < x <= c as real
  {
    if x.Floor as real == x then x.Floor else x.Floor + 1
  }

  lemma CeilMonotone(x: real, y: real)
    requires x <= y
    ensures Ceil(x) <= Ceil(y)
  {
  }

  /** S = max(k, ceil(s*N)): the least K with K >= k and K >= s*N. */
  function LowerIndex(k: int, N: int, s: real): (S: int)
    ensures S >= k && S as real >= s * N as real
    ensures S == k || (S - 1) as real < s * N as real
  {
    var c := Ceil(s * N as real);
    if c > k then c else k
  }

  /** The sum behind `probKGivenS`: the terms of Marginal with K >= max(k, ceil(s*N)).
      Nothing is divided when that range is empty. */
  function Joint(k: int, n: int, N: int, s: real): real
    requires 0 <= n <= N || Upper(k, n, N) <= LowerIndex(k, N, s)
  {
    SumOver(k, n, N, LowerIndex(k, N, s), Upper(k, n, N))
  }

  /** The threshold sum keeps a subset of the marginal's nonnegative terms, and
      all of them when the threshold is no higher than k. */
  lemma JointBounds(k: int, n: int, N: int, s: real)
    requires 0 <= n <= N || N < n
    ensures 0.0 <= Joint(k, n, N, s) <= Marginal(k, n, N)
    ensures Ceil(s * N as real) <= k ==> Joint(k, n, N, s) == Marginal(k, n, N)
  {
    SumNonnegative(k, n, N, LowerIndex(k, N, s), Upper(k, n, N));
    SumDropPrefix(k, n, N, k, LowerIndex(k, N, s), Upper(k, n, N));
  }

  lemma ScaleMonotone(s: real, s': real, N: int)
    requires s <= s' && N >= 0
    ensures s * N as real <= s' * N as real
  {
  }

  /** Raising the threshold can only raise S, so it drops nonnegative terms only. */
  lemma JointAntitone(k: int, n: int, N: int, s: real, s': real)
    requires 0 <= n <= N || N < n
    requires s <= s'
    ensures Joint(k, n, N, s') <= Joint(k, n, N, s)
  {
    if n <= N {
      ScaleMonotone(s, s', N);
      CeilMonotone(s * N as real, s' * N as real);
      SumDropPrefix(k, n, N, LowerIndex(k, N, s), LowerIndex(k, N, s'), Upper(k, n, N));
    }
  }

  /** `probKGivenS`: the same accumulation as `probK`, started at S. */
  method ProbKGivenS(k: int, n: int, N: int, s: real) returns (p: real)
    requires 0 <= n <= N || Upper(k, n, N) <= LowerIndex(k, N, s)
    ensures p == Joint(k, n, N, s)
  {
    var c := Ceil(s * N as real);
    var S := if k > c then k else c;
    p := 0.0;
    var hi := N - (n - k) + 1;
    var K := S;
    while K < hi
      invariant S <= K && (K <= hi || K == S)
      invariant p == SumOver(k, n, N, S, K)
    {
      var q := Prob(k, n, K, N);
      p := p + q;
      K := K + 1;
    }
  }

  /** The posterior probability that the population rate is at least s, given k
      successes in n draws, under a uniform prior over the attainable K. Defined
      exactly when the marginal is nonzero. */
  function Posterior(k: int, n: int, N: int, s: real): real
    requires 0 <= k <= n <= N
  {
    MarginalPositiveIff(k, n, N);
    Joint(k, n, N, s) / Marginal(k, n, N)
  }

  lemma PosteriorBounds(k: int, n: int, N: int, s: real)
    requires 0 <= k <= n <= N
    ensures 0.0 <= Posterior(k, n, N, s) <= 1.0
    ensures Ceil(s * N as real) <= k ==> Posterior(k, n, N, s) == 1.0
  {
    MarginalPositiveIff(k, n, N);
    JointBounds(k, n, N, s);
    RatioBounds(Joint(k, n, N, s), Marginal(k, n, N));
  }

  lemma DivideMonotone(x: real, x': real, y: real)
    requires x' <= x && y > 0.0
    ensures x' / y <= x / y
  {
  }

  /** A higher rate threshold is never more probable. */
  lemma PosteriorAntitone(k: int, n: int, N: int, s: real, s': real)
    requires 0 <= k <= n <= N
    requires s <= s'
    ensures Posterior(k, n, N, s') <= Posterior(k, n, N, s)
  {
    MarginalPositiveIff(k, n, N);
    JointAntitone(k, n, N, s, s');
    DivideMonotone(Joint(k, n, N, s), Joint(k, n, N, s'), Marginal(k, n, N));
  }

  /** `probSGivenK`: the ratio of the two accumulations. */
  method ProbSGivenK(k: int, n: int, N: int, s: real) returns (r: real)
    requires 0 <= k <= n <= N
    ensures r == Posterior(k, n, N, s)
  {
    var joint := ProbKGivenS(k, n, N, s);
    var marginal := ProbK(k, n, N);
    MarginalPositiveIff(k, n, N);
    r := joint / marginal;
  }
}
