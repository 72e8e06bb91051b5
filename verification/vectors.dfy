/**
 * The vector primitives of server/models/util.py (the Python copies of the
 * simulator library's C routines): binary sums, dot products, the maximum,
 * thresholding into a binary vector, leaky integration and the Bernoulli draw.
 * A binary vector (`bVector`) is a sequence of integers that are 0 or 1.
 */
module Vectors {
  import opened Sums
  import opened Results

  /** Every entry is 0 or 1. */
  predicate IsBinary(v: seq<int>)
  {
    forall i :: 0 <= i < |v| ==> v[i] == 0 || v[i] == 1
  }

  /** A vector of n zeros (Get_Vector / Get_bVector). */
  function Zeros(n: nat): (r: seq<real>)
    ensures |r| == n && forall i :: 0 <= i < n ==> r[i] == 0.0
  {
    seq(n, i => 0.0)
  }

  /** A binary vector of n zeros (Get_bVector). */
  function BZeros(n: nat): (r: seq<int>)
    ensures |r| == n && IsBinary(r) && forall i :: 0 <= i < n ==> r[i] == 0
  {
    seq(n, i => 0)
  }

  /** bSum: the sum of the entries of an integer vector. */
  function BSum(v: seq<int>): int
  {
    if |v| == 0 then 0 else BSum(v[..|v| - 1]) + v[|v| - 1]
  }

  /** The number of entries equal to 1. */
  function Ones(v: seq<int>): nat
  {
    if |v| == 0 then 0 else Ones(v[..|v| - 1]) + (if v[|v| - 1] == 1 then 1 else 0)
  }

  /** On a binary vector, bSum counts its ones, and so is at most its length. */
  lemma {:induction false} BSumCountsOnes(v: seq<int>)
    requires IsBinary(v)
    ensures BSum(v) == Ones(v)
    ensures 0 <= BSum(v) <= |v|
  {
    if |v| > 0 {
      BSumCountsOnes(v[..|v| - 1]);
    }
  }

  /** A vector of zeros sums to zero. */
  lemma {:induction false} BSumZeros(n: nat)
    ensures BSum(BZeros(n)) == 0
  {
    if n > 0 {
      assert BZeros(n)[..n - 1] == BZeros(n - 1);
      BSumZeros(n - 1);
    }
  }

  /** Overwriting one entry changes bSum by the difference between the new and the old value. */
  lemma {:induction false} BSumUpdate(v: seq<int>, k: nat, x: int)
    requires k < |v|
    ensures BSum(v[k := x]) == BSum(v) - v[k] + x
  {
    if k < |v| - 1 {
      assert v[k := x][..|v| - 1] == v[..|v| - 1][k := x];
      BSumUpdate(v[..|v| - 1], k, x);
    } else {
      assert v[k := x][..|v| - 1] == v[..|v| - 1];
    }
  }

  /** bbSkalar: the dot product of two integer vectors of equal length. */
  function BBSkalar(v1: seq<int>, v2: seq<int>): int
    requires |v1| == |v2|
  {
    if |v1| == 0 then 0
    else BBSkalar(v1[..|v1| - 1], v2[..|v2| - 1]) + v1[|v1| - 1] * v2[|v2| - 1]
  }

  /** The dot product does not depend on the order of its arguments. */
  lemma {:induction false} BBSkalarSymmetric(v1: seq<int>, v2: seq<int>)
    requires |v1| == |v2|
    ensures BBSkalar(v1, v2) == BBSkalar(v2, v1)
  {
    if |v1| > 0 {
      BBSkalarSymmetric(v1[..|v1| - 1], v2[..|v2| - 1]);
    }
  }

  /** On binary vectors the dot product counts shared ones, so it is bounded by either count. */
  lemma {:induction false} BBSkalarBounded(v1: seq<int>, v2: seq<int>)
    requires |v1| == |v2| && IsBinary(v1) && IsBinary(v2)
    ensures 0 <= BBSkalar(v1, v2) <= BSum(v1)
    ensures BBSkalar(v1, v2) <= BSum(v2)
  {
    if |v1| > 0 {
      BBSkalarBounded(v1[..|v1| - 1], v2[..|v2| - 1]);
    }
  }

  /** A binary vector dotted with itself gives its number of ones. */
  lemma {:induction false} BBSkalarSelf(v: seq<int>)
    requires IsBinary(v)
    ensures BBSkalar(v, v) == BSum(v)
  {
    if |v| > 0 {
      BBSkalarSelf(v[..|v| - 1]);
    }
  }

  /** bSkalar: the dot product of a real vector with an integer vector of equal length. */
  function BSkalar(v1: seq<real>, v2: seq<int>): real
    requires |v1| == |v2|
  {
    if |v1| == 0 then 0.0
    else BSkalar(v1[..|v1| - 1], v2[..|v2| - 1]) + v1[|v1| - 1] * (v2[|v2| - 1] as real)
  }

  /** The sum of the entries of v1 at the positions where v2 is set. */
  function MaskedSum(v1: seq<real>, v2: seq<int>): real
    requires |v1| == |v2|
  {
    if |v1| == 0 then 0.0
    else MaskedSum(v1[..|v1| - 1], v2[..|v2| - 1]) + (if v2[|v2| - 1] != 0 then v1[|v1| - 1] else 0.0)
  }

  /** With a binary mask, bSkalar adds up exactly the masked entries. */
  lemma {:induction false} BSkalarIsMaskedSum(v1: seq<real>, v2: seq<int>)
    requires |v1| == |v2| && IsBinary(v2)
    ensures BSkalar(v1, v2) == MaskedSum(v1, v2)
  {
    if |v1| > 0 {
      BSkalarIsMaskedSum(v1[..|v1| - 1], v2[..|v2| - 1]);
    }
  }

  /** Rates in [0,1] against a binary mask: the overlap lies between 0 and the mask's number of ones. */
  lemma {:induction false} BSkalarBounded(v1: seq<real>, v2: seq<int>)
    requires |v1| == |v2| && IsBinary(v2)
    requires forall i :: 0 <= i < |v1| ==> 0.0 <= v1[i] <= 1.0
    ensures 0.0 <= BSkalar(v1, v2) <= BSum(v2) as real
  {
    if |v1| > 0 {
      BSkalarBounded(v1[..|v1| - 1], v2[..|v2| - 1]);
    }
  }

  /**
   * Max_Elem: the largest entry. The Python version calls max(), which raises on an
   * empty vector, and the C version reports an error; both are `None` here.
   */
  function MaxElem(v: seq<real>): (r: Option<real>)
    ensures r.None? <==> |v| == 0
    ensures r.Some? ==> (exists i :: 0 <= i < |v| && v[i] == r.value)
    ensures r.Some? ==> forall i :: 0 <= i < |v| ==> v[i] <= r.value
  {
    if |v| == 0 then None
    else
      match MaxElem(v[..|v| - 1])
      case None => Some(v[|v| - 1])
      case Some(m) => if v[|v| - 1] > m then Some(v[|v| - 1]) else Some(m)
  }

  /**
   * Fire: thresholds the first n entries of `vektor` at `teta` into a binary
   * vector. With a destination it overwrites that vector's first n entries in
   * place; without one it returns a fresh vector of length n.
   */
  function Fire(n: nat, vektor: seq<real>, teta: real, dest: Option<seq<int>>): (r: seq<int>)
    requires n <= |vektor|
    requires dest.Some? ==> n <= |dest.value|
    ensures |r| == (if dest.Some? then |dest.value| else n)
    ensures forall i :: 0 <= i < n ==> (r[i] == 1 <==> vektor[i] > teta)
    ensures forall i :: 0 <= i < n ==> r[i] == 0 || r[i] == 1
    ensures dest.Some? ==> forall i :: n <= i < |r| ==> r[i] == dest.value[i]
  {
    var d := if dest.Some? then dest.value else BZeros(n);
    seq(|d|, i requires 0 <= i < |d| => if i < n then (if vektor[i] - teta > 0.0 then 1 else 0) else d[i])
  }

  /** Firing a binary destination keeps it binary. */
  lemma FireKeepsBinary(n: nat, vektor: seq<real>, teta: real, dest: seq<int>)
    requires n <= |vektor| && n <= |dest| && IsBinary(dest)
    ensures IsBinary(Fire(n, vektor, teta, Some(dest)))
  {
  }

  /**
   * leaky_integrate: one explicit Euler step of obj toward expr with time
   * constant tau; a zero time constant jumps straight to expr.
   */
  function LeakyIntegrate(tau: real, obj: real, expr: real, stepSize: real): (r: real)
    ensures tau == 0.0 ==> r == expr
    ensures obj == expr ==> r == expr
    ensures tau > 0.0 && 0.0 <= stepSize <= tau && obj <= expr ==> obj <= r <= expr
    ensures tau > 0.0 && 0.0 <= stepSize <= tau && expr <= obj ==> expr <= r <= obj
  {
    if tau != 0.0 then
      var a := stepSize / tau;
      assert tau > 0.0 && 0.0 <= stepSize <= tau ==> 0.0 <= a <= 1.0;
      ConvexStep(obj, expr, a);
      obj + (expr - obj) * a
    else expr
  }

  /** obj + (expr - obj)*a lies between obj and expr when 0 <= a <= 1. */
  lemma ConvexStep(obj: real, expr: real, a: real)
    ensures 0.0 <= a <= 1.0 && obj <= expr ==> obj <= obj + (expr - obj) * a <= expr
    ensures 0.0 <= a <= 1.0 && expr <= obj ==> expr <= obj + (expr - obj) * a <= obj
  {
    if 0.0 <= a <= 1.0 {
      if obj <= expr {
        assert (expr - obj) * a <= (expr - obj) * 1.0;
      } else {
        assert (obj - expr) * a <= (obj - expr) * 1.0;
      }
    }
  }

  /**
   * bool_noise: a Bernoulli draw with success probability p, given the uniform
   * draw in [0,1) that random.random() would have produced.
   */
  function BoolNoise(p: real, draw: real): (r: bool)
    requires 0.0 <= draw < 1.0
    ensures p >= 1.0 ==> r
    ensures p < 0.0 ==> !r
  {
    draw <= p
  }

  /** A larger probability succeeds on every draw a smaller one succeeds on. */
  lemma BoolNoiseMonotone(p: real, q: real, draw: real)
    requires 0.0 <= draw < 1.0 && p <= q
    ensures BoolNoise(p, draw) ==> BoolNoise(q, draw)
  {
  }
}
