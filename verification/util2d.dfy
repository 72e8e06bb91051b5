/**
 * The two-dimensional toroidal correlations of server/models/util.py, on
 * numpy-style matrices (sequences of equally long rows). They differ from the
 * flat ports in two ways that matter: the lowest window offset is Python's
 * -(k - 1) // 2, which floors, and a kernel index of -1 reads numpy's last
 * entry instead of failing. For odd kernel sizes both differences vanish and
 * the matrices agree, entry for entry, with the flat correlation of their
 * row-major flattenings; for even sizes the window gains a tap (see
 * EvenKernelDoubleCounts).
 */
module Util2d {
  import opened Sums
  import opened Correlation

  /** A matrix as a sequence of rows. */
  type Matrix = seq<seq<real>>

  /** m has `rows` rows of `cols` entries each. */
  predicate IsShape(m: Matrix, rows: nat, cols: nat)
  {
    |m| == rows && forall r :: 0 <= r < rows ==> |m[r]| == cols
  }

  /** The column count of a rectangular matrix (0 when it has no rows). */
  function Cols(m: Matrix): nat
  {
    if |m| == 0 then 0 else |m[0]|
  }

  /** Python's -(k - 1) // 2: the minus binds first, then floor division. */
  function FloorLo(k: nat): int
  {
    (-(k as int - 1)) / 2
  }

  /** numpy's reading of index t along an axis of length n: a negative index counts from the end. */
  function NpIndex(t: int, n: nat): int
  {
    if t < 0 then t + n else t
  }

  /** A non-empty rectangular kernel. */
  predicate KernelShape(kern: Matrix)
  {
    |kern| > 0 && |kern[0]| > 0 && IsShape(kern, |kern|, |kern[0]|)
  }

  /** A field whose first mr rows hold at least mc entries each, read modulo mr and mc. */
  predicate Covers(inp: Matrix, mr: nat, mc: nat)
  {
    |inp| >= mr && forall r :: 0 <= r < mr ==> |inp[r]| >= mc
  }

  /**
   * The summand for kernel row offset k at output (i, j), as a function of the
   * column offset l: kernel[k + (ky - 1) // 2, l + (kx - 1) // 2] times the
   * field entry [(i + k) % mr, (j + l) % mc], with numpy's negative indexing
   * on the kernel. Offsets whose kernel index numpy would refuse give 0.
   */
  function Term2(inp: Matrix, kern: Matrix, mr: nat, mc: nat, i: int, j: int, k: int): int -> real
    requires KernelShape(kern) && mr > 0 && mc > 0 && Covers(inp, mr, mc)
  {
    l =>
      var a, b := k + (|kern| - 1) / 2, l + (|kern[0]| - 1) / 2;
      if -|kern| <= a < |kern| && -|kern[0]| <= b < |kern[0]| then
        kern[NpIndex(a, |kern|)][NpIndex(b, |kern[0]|)] * inp[(i + k) % mr][(j + l) % mc]
      else 0.0
  }

  /** The row sums of one window: kernel row offset k sums column offsets loC .. kx // 2. */
  function Rows2(inp: Matrix, kern: Matrix, mr: nat, mc: nat, i: int, j: int, loC: int): int -> real
    requires KernelShape(kern) && mr > 0 && mc > 0 && Covers(inp, mr, mc)
  {
    k => Sigma(Term2(inp, kern, mr, mc, i, j, k), loC, |kern[0]| / 2)
  }

  /** The window sum at (i, j) with row offsets loR .. ky // 2 and column offsets loC .. kx // 2. */
  function Window2(inp: Matrix, kern: Matrix, mr: nat, mc: nat, i: int, j: int, loR: int, loC: int): real
    requires KernelShape(kern) && mr > 0 && mc > 0 && Covers(inp, mr, mc)
  {
    Sigma(Rows2(inp, kern, mr, mc, i, j, loC), loR, |kern| / 2)
  }

  /**
   * Correlate_2d_Uni_cyclic of util.py: every entry of out is overwritten by
   * the window sum with util.py's floored offsets; rows and columns of the
   * field wrap modulo out's shape, not the field's.
   */
  function UniCyclic2d(inp: Matrix, kern: Matrix, out: Matrix): (r: Matrix)
    requires KernelShape(kern) && IsShape(out, |out|, Cols(out)) && Covers(inp, |out|, Cols(out))
    ensures IsShape(r, |out|, Cols(out))
  {
    if |out| == 0 || Cols(out) == 0 then out
    else
      seq(|out|, i requires 0 <= i < |out| =>
        seq(Cols(out), j requires 0 <= j < Cols(out) =>
          Window2(inp, kern, |out|, Cols(out), i, j, FloorLo(|kern|), FloorLo(|kern[0]|))))
  }

  /**
   * Correlate_2d_Uni_cyclic with the offsets of the C original, -((k - 1) / 2)
   * truncated: the window has exactly ky rows and kx columns.
   */
  function UniCyclic2dFixed(inp: Matrix, kern: Matrix, out: Matrix): (r: Matrix)
    requires KernelShape(kern) && IsShape(out, |out|, Cols(out)) && Covers(inp, |out|, Cols(out))
    ensures IsShape(r, |out|, Cols(out))
  {
    if |out| == 0 || Cols(out) == 0 then out
    else
      seq(|out|, i requires 0 <= i < |out| =>
        seq(Cols(out), j requires 0 <= j < Cols(out) =>
          Window2(inp, kern, |out|, Cols(out), i, j, Lo(|kern|), Lo(|kern[0]|))))
  }

  /**
   * Correlate_2d_cyclic of util.py. It unpacks the field's shape as (x, y) and
   * the kernel's as (kx, ky) and then indexes rows with y and columns with x,
   * so any non-square field (and, once the field is non-empty, any non-square
   * kernel) makes numpy raise IndexError; the requires exclude those calls.
   * The n x n top-left block of out receives the window sums; the rest of out
   * is kept.
   */
  function Cyclic2d(inp: Matrix, kern: Matrix, out: Matrix): (r: Matrix)
    requires IsShape(inp, |inp|, |inp|)
    requires |inp| > 0 ==> KernelShape(kern) && |kern| == |kern[0]|
    requires |out| >= |inp| && forall t :: 0 <= t < |out| ==> |out[t]| >= |inp|
    ensures |r| == |out| && forall t :: 0 <= t < |out| ==> |r[t]| == |out[t]|
    ensures forall i, j :: 0 <= i < |out| && 0 <= j < |out[i]| && (i >= |inp| || j >= |inp|) ==> r[i][j] == out[i][j]
  {
    var n := |inp|;
    seq(|out|, i requires 0 <= i < |out| =>
      if i < n then
        seq(|out[i]|, j requires 0 <= j < |out[i]| =>
          if j < n then Window2(inp, kern, n, n, i, j, FloorLo(|kern[0]|), FloorLo(|kern|)) else out[i][j])
      else out[i])
  }

  /** A square field, kernel and output: Correlate_2d_cyclic and Correlate_2d_Uni_cyclic agree. */
  lemma SquareVariantsAgree(inp: Matrix, kern: Matrix, out: Matrix)
    requires |inp| > 0 && IsShape(inp, |inp|, |inp|) && IsShape(out, |inp|, |inp|)
    requires KernelShape(kern) && |kern| == |kern[0]|
    ensures Cyclic2d(inp, kern, out) == UniCyclic2d(inp, kern, out)
  {
    var r1, r2 := Cyclic2d(inp, kern, out), UniCyclic2d(inp, kern, out);
    forall i | 0 <= i < |inp|
      ensures r1[i] == r2[i]
    {
      assert |r1[i]| == |r2[i]|;
    }
  }

  /** The row-major flattening of a rows x cols matrix: entry (r, c) moves to r*cols + c. */
  function Flatten(m: Matrix, rows: nat, cols: nat): (f: seq<real>)
    requires IsShape(m, rows, cols)
    ensures |f| == cols * rows
  {
    seq(cols * rows, t requires 0 <= t < cols * rows =>
      DivModBounds(t, cols, rows);
      m[t / cols][t % cols])
  }

  /** Entry (r, c) of a matrix sits at r*cols + c of its flattening. */
  lemma FlattenAt(m: Matrix, rows: nat, cols: nat, r: int, c: int)
    requires IsShape(m, rows, cols) && 0 <= r < rows && 0 <= c < cols
    ensures 0 <= r * cols + c < cols * rows
    ensures Flatten(m, rows, cols)[r * cols + c] == m[r][c]
  {
    RowMajorBounds(r, c, cols, rows);
    RowMajorInverse(r, c, cols);
  }

  /** Flattening loses nothing: matrices of one shape with equal flattenings are equal. */
  lemma FlattenInjective(m1: Matrix, m2: Matrix, rows: nat, cols: nat)
    requires IsShape(m1, rows, cols) && IsShape(m2, rows, cols)
    requires Flatten(m1, rows, cols) == Flatten(m2, rows, cols)
    ensures m1 == m2
  {
    forall r | 0 <= r < rows
      ensures m1[r] == m2[r]
    {
      forall c | 0 <= c < cols
        ensures m1[r][c] == m2[r][c]
      {
        FlattenAt(m1, rows, cols, r, c);
        FlattenAt(m2, rows, cols, r, c);
      }
    }
  }

  /** The geometry of the flat correlation matching an oy x ox field and a ky x kx kernel. */
  function FlatGeometry(inp: Matrix, kern: Matrix): Geometry
  {
    Geometry(Cols(inp), |inp|, Cols(kern), |kern|)
  }

  /** Inside the window of the C offsets, a summand of Term2 reads no negative kernel index. */
  lemma TermFixedAt(inp: Matrix, kern: Matrix, mr: nat, mc: nat, i: int, j: int, k: int, l: int)
    requires KernelShape(kern) && mr > 0 && mc > 0 && Covers(inp, mr, mc)
    requires InRange(k, |kern|) && InRange(l, |kern[0]|)
    ensures 0 <= k + (|kern| - 1) / 2 < |kern| && 0 <= l + (|kern[0]| - 1) / 2 < |kern[0]|
    ensures 0 <= (i + k) % mr < mr && 0 <= (j + l) % mc < mc
    ensures Term2(inp, kern, mr, mc, i, j, k)(l)
         == kern[k + (|kern| - 1) / 2][l + (|kern[0]| - 1) / 2] * inp[(i + k) % mr][(j + l) % mc]
  {
    var a, b := k + (|kern| - 1) / 2, l + (|kern[0]| - 1) / 2;
    assert 0 <= a < |kern| && 0 <= b < |kern[0]|;
    assert NpIndex(a, |kern|) == a && NpIndex(b, |kern[0]|) == b;
  }

  /** A kernel entry inside the window is the flat kernel's entry at KernIndex. */
  lemma KernelEntryFlat(inp: Matrix, kern: Matrix, k: int, l: int)
    requires KernelShape(kern) && InRange(k, |kern|) && InRange(l, |kern[0]|)
    ensures 0 <= k + (|kern| - 1) / 2 < |kern| && 0 <= l + (|kern[0]| - 1) / 2 < |kern[0]|
    ensures 0 <= KernIndex(FlatGeometry(inp, kern), k, l) < |kern[0]| * |kern|
    ensures kern[k + (|kern| - 1) / 2][l + (|kern[0]| - 1) / 2]
         == Flatten(kern, |kern|, |kern[0]|)[KernIndex(FlatGeometry(inp, kern), k, l)]
  {
    var a, b := k + (|kern| - 1) / 2, l + (|kern[0]| - 1) / 2;
    FlattenAt(kern, |kern|, |kern[0]|, a, b);
  }

  /** A field entry read modulo the field's shape is the flat field's entry at InIndex. */
  lemma FieldEntryFlat(inp: Matrix, kern: Matrix, i: int, j: int, k: int, l: int)
    requires |inp| > 0 && |inp[0]| > 0 && IsShape(inp, |inp|, |inp[0]|)
    ensures 0 <= (i + k) % |inp| < |inp| && 0 <= (j + l) % |inp[0]| < |inp[0]|
    ensures 0 <= InIndex(FlatGeometry(inp, kern), i, j, k, l) < |inp[0]| * |inp|
    ensures inp[(i + k) % |inp|][(j + l) % |inp[0]|]
         == Flatten(inp, |inp|, |inp[0]|)[InIndex(FlatGeometry(inp, kern), i, j, k, l)]
  {
    FlattenAt(inp, |inp|, |inp[0]|, (i + k) % |inp|, (j + l) % |inp[0]|);
  }

  /** Inside the window of the C offsets, one summand of Term2 is the flat summand of the flattenings. */
  lemma TermFixedIsFlat(inp: Matrix, kern: Matrix, i: int, j: int, k: int, l: int)
    requires KernelShape(kern) && |inp| > 0 && |inp[0]| > 0 && IsShape(inp, |inp|, |inp[0]|)
    requires InRange(k, |kern|) && InRange(l, |kern[0]|)
    ensures Fits(FlatGeometry(inp, kern), Flatten(inp, |inp|, |inp[0]|), Flatten(kern, |kern|, |kern[0]|))
    ensures Term2(inp, kern, |inp|, |inp[0]|, i, j, k)(l)
         == TermAt(FlatGeometry(inp, kern), Flatten(inp, |inp|, |inp[0]|), Flatten(kern, |kern|, |kern[0]|), i, j, k)(l)
  {
    TermFixedAt(inp, kern, |inp|, |inp[0]|, i, j, k, l);
    KernelEntryFlat(inp, kern, k, l);
    FieldEntryFlat(inp, kern, i, j, k, l);
    TermAtIs(FlatGeometry(inp, kern), Flatten(inp, |inp|, |inp[0]|), Flatten(kern, |kern|, |kern[0]|), i, j, k, l);
  }

  /**
   * With the C offsets, the window sum at (i, j) of a field the size of the
   * output is the flat correlation's cell (i, j) of the flattenings.
   */
  lemma WindowFixedIsCell(inp: Matrix, kern: Matrix, i: int, j: int)
    requires KernelShape(kern) && |inp| > 0 && |inp[0]| > 0 && IsShape(inp, |inp|, |inp[0]|)
    ensures Fits(FlatGeometry(inp, kern), Flatten(inp, |inp|, |inp[0]|), Flatten(kern, |kern|, |kern[0]|))
    ensures Window2(inp, kern, |inp|, |inp[0]|, i, j, Lo(|kern|), Lo(|kern[0]|))
         == Cell(FlatGeometry(inp, kern), Flatten(inp, |inp|, |inp[0]|), Flatten(kern, |kern|, |kern[0]|), i, j)
  {
    var g := FlatGeometry(inp, kern);
    var fi, fk := Flatten(inp, |inp|, |inp[0]|), Flatten(kern, |kern|, |kern[0]|);
    forall k | Lo(|kern|) <= k <= Hi(|kern|)
      ensures Rows2(inp, kern, |inp|, |inp[0]|, i, j, Lo(|kern[0]|))(k) == RowsAt(g, fi, fk, i, j)(k)
    {
      forall l | Lo(|kern[0]|) <= l <= Hi(|kern[0]|)
        ensures Term2(inp, kern, |inp|, |inp[0]|, i, j, k)(l) == TermAt(g, fi, fk, i, j, k)(l)
      {
        TermFixedIsFlat(inp, kern, i, j, k, l);
      }
      SigmaExt(Term2(inp, kern, |inp|, |inp[0]|, i, j, k), TermAt(g, fi, fk, i, j, k), Lo(|kern[0]|), Hi(|kern[0]|));
    }
    SigmaExt(Rows2(inp, kern, |inp|, |inp[0]|, i, j, Lo(|kern[0]|)), RowsAt(g, fi, fk, i, j), Lo(|kern|), Hi(|kern|));
  }

  /**
   * The corrected 2D correlation is the flat correlation: flattening its result
   * gives CorrelateCyclic of the flattened field, kernel and output.
   */
  lemma FixedIsFlat(inp: Matrix, kern: Matrix, out: Matrix)
    requires KernelShape(kern) && |inp| > 0 && |inp[0]| > 0 && IsShape(inp, |inp|, |inp[0]|)
    requires IsShape(out, |inp|, |inp[0]|)
    ensures Fits(FlatGeometry(inp, kern), Flatten(inp, |inp|, |inp[0]|), Flatten(kern, |kern|, |kern[0]|))
    ensures Flatten(UniCyclic2dFixed(inp, kern, out), |inp|, |inp[0]|)
         == CorrelateCyclic(FlatGeometry(inp, kern), Flatten(inp, |inp|, |inp[0]|),
                            Flatten(kern, |kern|, |kern[0]|), Flatten(out, |inp|, |inp[0]|))
  {
    WindowFixedIsCell(inp, kern, 0, 0);
    forall i, j | 0 <= i < |inp| && 0 <= j < |inp[0]|
      ensures 0 <= i * |inp[0]| + j < |Flatten(UniCyclic2dFixed(inp, kern, out), |inp|, |inp[0]|)|
      ensures Cell(FlatGeometry(inp, kern), Flatten(inp, |inp|, |inp[0]|), Flatten(kern, |kern|, |kern[0]|), i, j)
           == Flatten(UniCyclic2dFixed(inp, kern, out), |inp|, |inp[0]|)[i * |inp[0]| + j]
    {
      FixedEntryIsCell(inp, kern, out, i, j);
      FlattenAt(UniCyclic2dFixed(inp, kern, out), |inp|, |inp[0]|, i, j);
    }
    assert FlatGeometry(inp, kern).w == |inp[0]| && FlatGeometry(inp, kern).h == |inp|;
    CorrelateCyclicAll(FlatGeometry(inp, kern), Flatten(inp, |inp|, |inp[0]|), Flatten(kern, |kern|, |kern[0]|),
                       Flatten(out, |inp|, |inp[0]|), Flatten(UniCyclic2dFixed(inp, kern, out), |inp|, |inp[0]|));
  }

  /** Entry (i, j) of the corrected 2D correlation is the flat cell (i, j) of the flattenings. */
  lemma FixedEntryIsCell(inp: Matrix, kern: Matrix, out: Matrix, i: int, j: int)
    requires KernelShape(kern) && |inp| > 0 && |inp[0]| > 0 && IsShape(inp, |inp|, |inp[0]|)
    requires IsShape(out, |inp|, |inp[0]|) && 0 <= i < |inp| && 0 <= j < |inp[0]|
    ensures Fits(FlatGeometry(inp, kern), Flatten(inp, |inp|, |inp[0]|), Flatten(kern, |kern|, |kern[0]|))
    ensures UniCyclic2dFixed(inp, kern, out)[i][j]
         == Cell(FlatGeometry(inp, kern), Flatten(inp, |inp|, |inp[0]|), Flatten(kern, |kern|, |kern[0]|), i, j)
  {
    WindowFixedIsCell(inp, kern, i, j);
    assert Cols(out) == |inp[0]|;
  }

  /** For odd kernel sizes Python's floored offset is the C offset. */
  lemma FloorLoOdd(k: nat)
    requires k % 2 == 1
    ensures FloorLo(k) == Lo(k)
  {
  }

  /**
   * For odd kernel sizes util.py's Correlate_2d_Uni_cyclic is the corrected
   * one, and so (FixedIsFlat) the flat correlation of the flattenings.
   */
  lemma OddKernelAsWrittenIsFixed(inp: Matrix, kern: Matrix, out: Matrix)
    requires KernelShape(kern) && IsShape(out, |out|, Cols(out)) && Covers(inp, |out|, Cols(out))
    requires |kern| % 2 == 1 && |kern[0]| % 2 == 1
    ensures UniCyclic2d(inp, kern, out) == UniCyclic2dFixed(inp, kern, out)
  {
    FloorLoOdd(|kern|);
    FloorLoOdd(|kern[0]|);
  }

  /**
   * The even-kernel discrepancy: a 1 x 2 kernel of ones over the 1 x 1 field
   * [[1]] should sum two taps, but util.py's floored left offset -1 adds a
   * third tap that numpy reads as the kernel's last column.
   */
  lemma EvenKernelDoubleCounts(inp: Matrix, kern: Matrix, out: Matrix)
    requires inp == [[1.0]] && kern == [[1.0, 1.0]] && out == [[0.0]]
    ensures UniCyclic2d(inp, kern, out) == [[3.0]]
    ensures UniCyclic2dFixed(inp, kern, out) == [[2.0]]
  {
    EvenKernelWindows(inp, kern);
    var r1, r2 := UniCyclic2d(inp, kern, out), UniCyclic2dFixed(inp, kern, out);
    assert |r1| == 1 && |r1[0]| == 1 && r1[0][0] == 3.0;
    assert r1[0] == [3.0];
    assert |r2| == 1 && |r2[0]| == 1 && r2[0][0] == 2.0;
    assert r2[0] == [2.0];
  }

  /** The single window of the even-kernel example, with util.py's offsets and with the C offsets. */
  lemma EvenKernelWindows(inp: Matrix, kern: Matrix)
    requires inp == [[1.0]] && kern == [[1.0, 1.0]]
    ensures Window2(inp, kern, 1, 1, 0, 0, FloorLo(|kern|), FloorLo(|kern[0]|)) == 3.0
    ensures Window2(inp, kern, 1, 1, 0, 0, Lo(|kern|), Lo(|kern[0]|)) == 2.0
  {
    var t := Term2(inp, kern, 1, 1, 0, 0, 0);
    OnesTap(inp, kern, -1);
    OnesTap(inp, kern, 0);
    OnesTap(inp, kern, 1);
    assert Sigma(t, -1, 1) == 3.0;
    assert Sigma(t, 0, 1) == 2.0;
    assert FloorLo(2) == -1 && Lo(2) == 0 && FloorLo(1) == 0 && Lo(1) == 0;
  }

  /** Each of the taps -1, 0, 1 of the even-kernel example reads a kernel 1 and the field's 1. */
  lemma OnesTap(inp: Matrix, kern: Matrix, l: int)
    requires inp == [[1.0]] && kern == [[1.0, 1.0]] && -1 <= l <= 1
    ensures Term2(inp, kern, 1, 1, 0, 0, 0)(l) == 1.0
  {
    var b := l + (|kern[0]| - 1) / 2;
    assert b == l && -2 <= b < 2;
    assert (0 + l) % 1 == 0;
    assert kern[0][NpIndex(b, 2)] == 1.0;
    var a := 0 + (|kern| - 1) / 2;
    assert a == 0;
    assert -|kern| <= a < |kern| && -|kern[0]| <= b < |kern[0]|;
    assert Term2(inp, kern, 1, 1, 0, 0, 0)(l) == kern[NpIndex(a, |kern|)][NpIndex(b, |kern[0]|)] * inp[(0 + 0) % 1][(0 + l) % 1];
  }
}
