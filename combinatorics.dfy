/** Binomial coefficients: the mathematical definition by Pascal's rule, the
    identities the multiplicative loop relies on, and that loop (`comb`). */
module Combinatorics {

  /** "n choose k", the number of k-element subsets of an n-element set;
      zero whenever k > n, n < 0 or k < 0. */
  function Binom(n: int, k: int): (r: nat)
    ensures r > 0 <==> 0 <= k <= n
    decreases n
  {
    if n < 0 || k < 0 || k > n then 0
    else if k == 0 || k == n then 1
    else Binom(n - 1, k - 1) + Binom(n - 1, k)
  }

  /** Pascal's rule holds for every k once n >= 1, also at and beyond the edges. */
  lemma Pascal(n: int, k: int)
    requires n >= 1
    ensures Binom(n, k) == Binom(n - 1, k - 1) + Binom(n - 1, k)
  {
  }

  lemma {:induction false} BinomSymmetric(n: int, k: int)
    ensures Binom(n, k) == Binom(n, n - k)
    decreases n
  {
    if n < 0 || k < 0 || k > n || k == 0 || k == n {
    } else {
      BinomSymmetric(n - 1, k - 1);
      BinomSymmetric(n - 1, k);
    }
  }

  /** The absorption identity k * C(n, k) == n * C(n-1, k-1). */
  lemma {:induction false} BinomAbsorb(n: int, k: int)
    requires 1 <= k <= n
    ensures k * Binom(n, k) == n * Binom(n - 1, k - 1)
    decreases n
  {
    if k < n {
      BinomAbsorb(n - 1, k);
      if k > 1 {
        BinomAbsorb(n - 1, k - 1);
      }
      Pascal(n, k);
      Pascal(n - 1, k - 1);
      AbsorbArith(n, k, Binom(n - 1, k - 1), Binom(n - 1, k), Binom(n - 2, k - 2), Binom(n - 2, k - 1));
    }
  }

  /** The arithmetic of one absorption step, with the coefficients as plain numbers. */
  lemma AbsorbArith(n: int, k: int, a: int, b: int, c: int, e: int)
    requires k * b == (n - 1) * e && (k - 1) * a == (n - 1) * c && a == c + e
    ensures k * (a + b) == n * a
  {
  }

  /** One step of the multiplicative loop: C(n, j) * (n - j) == C(n, j+1) * (j + 1),
      so the loop's floor division by j + 1 is exact. */
  lemma BinomStep(n: int, j: int)
    requires 0 <= j < n
    ensures Binom(n, j) * (n - j) == Binom(n, j + 1) * (j + 1)
  {
    BinomAbsorb(n, j + 1);
    BinomSymmetric(n, j);
    BinomAbsorb(n, n - j);
    BinomSymmetric(n - 1, j);
  }

  /** C(a, j) * C(b, m - j) <= C(a + b, m): one term of Vandermonde's sum is at
      most the whole sum. */
  lemma {:induction false} BinomProductBound(a: int, b: int, j: int, m: int)
    ensures Binom(a, j) * Binom(b, m - j) <= Binom(a + b, m)
    decreases a
  {
    if a < 0 || b < 0 {
      assert Binom(a, j) == 0 || Binom(b, m - j) == 0;
    } else if a == 0 {
      if j == 0 {
        assert Binom(a, j) * Binom(b, m - j) == Binom(b, m);
      } else {
        assert Binom(a, j) == 0;
      }
    } else {
      BinomProductBound(a - 1, b, j - 1, m - 1);
      BinomProductBound(a - 1, b, j, m);
      Pascal(a, j);
      Pascal(a + b, m);
      ProductArith(Binom(a - 1, j - 1), Binom(a - 1, j), Binom(b, m - j),
                   Binom(a - 1 + b, m - 1), Binom(a - 1 + b, m));
    }
  }

  /** (p + q) * x <= s1 + s2 from p * x <= s1 and q * x <= s2. */
  lemma ProductArith(p: int, q: int, x: int, s1: int, s2: int)
    requires p * x <= s1 && q * x <= s2
    ensures (p + q) * x <= s1 + s2
  {
  }

  /** Exact floor division: a product divided by one of its factors. */
  lemma ExactDivision(x: int, d: int, q: int)
    requires d > 0 && x == q * d
    ensures x / d == q && x % d == 0
  {
    assert d * (q - x / d) == x % d;
    MulBounds(d, q - x / d);
  }

  lemma MulBounds(d: int, t: int)
    requires d > 0
    ensures t >= 1 ==> d * t >= d
    ensures t <= -1 ==> d * t <= -d
  {
  }

  /** The binomial coefficient as `comb` computes it: zero outside the domain,
      otherwise min(k, N-k) multiplicative steps with floor division, each exact. */
  method Comb(N: int, k: int) returns (r: int)
    ensures r == Binom(N, k)
    ensures r == 0 <==> (k > N || N < 0 || k < 0)
    ensures r == Binom(N, N - k)
  {
    if k > N || N < 0 || k < 0 {
      return 0;
    }
    var val := 1;
    var m := if k < N - k then k else N - k;
    for j := 0 to m
      invariant val == Binom(N, j)
    {
      BinomStep(N, j);
      ExactDivision(val * (N - j), j + 1, Binom(N, j + 1));
      val := (val * (N - j)) / (j + 1);
    }
    BinomSymmetric(N, k);
    return val;
  }

  lemma CombExamples()
    ensures Binom(5, 2) == 10 && Binom(0, 0) == 1 && Binom(10, 0) == 1
  {
  }
}
