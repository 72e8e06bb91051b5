/** Finite sums of reals: the accumulations behind dot products, correlations and learning totals. */
module Sums {

  /** Sum of a vector of reals, accumulated from the first entry to the last. */
  function Sum(v: seq<real>): real
  {
    if |v| == 0 then 0.0 else Sum(v[..|v| - 1]) + v[|v| - 1]
  }

  /** Sum of g(t) over the integer range a <= t <= b (zero when the range is empty). */
  function Sigma(g: int -> real, a: int, b: int): real
    decreases b - a
  {
    if b < a then 0.0 else Sigma(g, a, b - 1) + g(b)
  }

  /** Sums of two summands that agree on the range are equal. */
  lemma {:induction false} SigmaExt(g1: int -> real, g2: int -> real, a: int, b: int)
    requires forall t :: a <= t <= b ==> g1(t) == g2(t)
    ensures Sigma(g1, a, b) == Sigma(g2, a, b)
    decreases b - a
  {
    if b >= a {
      SigmaExt(g1, g2, a, b - 1);
    }
  }

  /** A non-empty sum can be split at its first term. */
  lemma {:induction false} SigmaFront(g: int -> real, a: int, b: int)
    requires a <= b
    ensures Sigma(g, a, b) == g(a) + Sigma(g, a + 1, b)
    decreases b - a
  {
    if a < b {
      SigmaFront(g, a, b - 1);
    }
  }

  /** A sum splits into two consecutive ranges. */
  lemma {:induction false} SigmaSplit(g: int -> real, a: int, m: int, b: int)
    requires a - 1 <= m <= b
    ensures Sigma(g, a, b) == Sigma(g, a, m) + Sigma(g, m + 1, b)
    decreases b - m
  {
    if m < b {
      SigmaSplit(g, a, m, b - 1);
    }
  }

  /** A constant factor moves out of a sum. */
  lemma {:induction false} SigmaScale(g1: int -> real, g2: int -> real, c: real, a: int, b: int)
    requires forall t :: a <= t <= b ==> g2(t) == c * g1(t)
    ensures Sigma(g2, a, b) == c * Sigma(g1, a, b)
    decreases b - a
  {
    if b >= a {
      SigmaScale(g1, g2, c, a, b - 1);
    }
  }

  /** Sums of pointwise-added summands add. */
  lemma {:induction false} SigmaAdd(g1: int -> real, g2: int -> real, g: int -> real, a: int, b: int)
    requires forall t :: a <= t <= b ==> g(t) == g1(t) + g2(t)
    ensures Sigma(g, a, b) == Sigma(g1, a, b) + Sigma(g2, a, b)
    decreases b - a
  {
    if b >= a {
      SigmaAdd(g1, g2, g, a, b - 1);
    }
  }

  /** Re-indexing a sum by a fixed shift s. */
  lemma {:induction false} SigmaShift(g1: int -> real, g2: int -> real, s: int, a: int, b: int)
    requires forall t :: a <= t <= b ==> g1(t) == g2(t + s)
    ensures Sigma(g1, a, b) == Sigma(g2, a + s, b + s)
    decreases b - a
  {
    if b >= a {
      SigmaShift(g1, g2, s, a, b - 1);
    }
  }

  /** A sum of non-negative terms is non-negative. */
  lemma {:induction false} SigmaNonNegative(g: int -> real, a: int, b: int)
    requires forall t :: a <= t <= b ==> g(t) >= 0.0
    ensures Sigma(g, a, b) >= 0.0
    decreases b - a
  {
    if b >= a {
      SigmaNonNegative(g, a, b - 1);
    }
  }

  /** Sums respect a pointwise order of their summands. */
  lemma {:induction false} SigmaMonotone(g1: int -> real, g2: int -> real, a: int, b: int)
    requires forall t :: a <= t <= b ==> g1(t) <= g2(t)
    ensures Sigma(g1, a, b) <= Sigma(g2, a, b)
    decreases b - a
  {
    if b >= a {
      SigmaMonotone(g1, g2, a, b - 1);
    }
  }

  /** The sum of a vector is the sum of its entries over the index range. */
  lemma {:induction false} SumIsSigma(v: seq<real>, g: int -> real)
    requires forall t :: 0 <= t < |v| ==> g(t) == v[t]
    ensures Sum(v) == Sigma(g, 0, |v| - 1)
  {
    if |v| > 0 {
      var w := v[..|v| - 1];
      assert forall t :: 0 <= t < |w| ==> g(t) == w[t];
      SumIsSigma(w, g);
    }
  }

  /** The sum of a concatenation is the sum of the parts. */
  lemma {:induction false} SumConcat(a: seq<real>, b: seq<real>)
    ensures Sum(a + b) == Sum(a) + Sum(b)
    decreases |b|
  {
    if |b| > 0 {
      var b' := b[..|b| - 1];
      assert (a + b)[..|a + b| - 1] == a + b';
      SumConcat(a, b');
    } else {
      assert a + b == a;
    }
  }

  /** g read through indices taken modulo n. */
  function Wrap(g: int -> real, n: nat): int -> real
    requires n > 0
  {
    t => g(t % n)
  }

  /** Sliding a window of n terms one place along a wrapped summand leaves its sum unchanged. */
  lemma SigmaWrapSlide(g: int -> real, n: nat, a: int)
    requires n > 0
    ensures Sigma(Wrap(g, n), a + 1, a + n) == Sigma(Wrap(g, n), a, a + n - 1)
  {
    SigmaFront(Wrap(g, n), a, a + n - 1);
    ModPeriod(a, n);
    assert Wrap(g, n)(a + n) == Wrap(g, n)(a);
  }

  /** Every window of n consecutive indices, taken modulo n, sums g over 0..n-1. */
  lemma {:induction false} SigmaWrapWindow(g: int -> real, n: nat, a: int)
    requires n > 0
    ensures Sigma(Wrap(g, n), a, a + n - 1) == Sigma(g, 0, n - 1)
    decreases if a >= 0 then a else -a
  {
    if a > 0 {
      SigmaWrapWindow(g, n, a - 1);
      SigmaWrapSlide(g, n, a - 1);
    } else if a < 0 {
      SigmaWrapWindow(g, n, a + 1);
      SigmaWrapSlide(g, n, a);
    } else {
      forall t | 0 <= t <= n - 1
        ensures Wrap(g, n)(t) == g(t)
      {
        assert t % n == t;
      }
      SigmaExt(Wrap(g, n), g, 0, n - 1);
    }
  }

  /**
   * Summing g over the cyclically shifted indices (s + t) mod n, for t running
   * over any window of n consecutive integers, visits every residue once.
   */
  lemma SigmaCyclic(g1: int -> real, g: int -> real, n: nat, s: int, a: int)
    requires n > 0
    requires forall t :: a <= t <= a + n - 1 ==> g1(t) == g((s + t) % n)
    ensures Sigma(g1, a, a + n - 1) == Sigma(g, 0, n - 1)
  {
    forall t | a <= t <= a + n - 1
      ensures g1(t) == Wrap(g, n)(t + s)
    {
      assert s + t == t + s;
    }
    SigmaShift(g1, Wrap(g, n), s, a, a + n - 1);
    SigmaWrapWindow(g, n, a + s);
  }

  lemma ModPeriod(t: int, n: nat)
    requires n > 0
    ensures (t + n) % n == t % n
  {
    DivModUnique(t + n, n, t / n + 1, t % n);
  }

  /** Quotient and remainder are determined by t == q*n + r with 0 <= r < n. */
  lemma DivModUnique(t: int, n: nat, q: int, r: int)
    requires n > 0 && 0 <= r < n && t == q * n + r
    ensures t / n == q && t % n == r
  {
    var d := q - t / n;
    assert d * n == t % n - r by {
      assert t == (t / n) * n + t % n;
      assert d * n == q * n - (t / n) * n;
    }
    if d <= -1 {
      MulMonotone(1, -d, n);
    }
  }

  lemma MulMonotone(a: int, b: int, n: nat)
    requires a <= b
    ensures a * n <= b * n
  {
    assert b * n - a * n == (b - a) * n;
  }
}
