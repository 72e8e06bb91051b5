/**
 * Toroidal 2D correlation over flattened (row-major) grids, as performed by
 * the flat ports in server/models/correlation.py. A width*height field is
 * correlated with a kw*kh kernel whose offsets run from Lo(k) to Hi(k) along
 * each axis; positions that fall off an edge wrap around to the other side.
 */
module Correlation {
  import opened Sums

  /** The sizes of one correlation: field width and height, kernel width and height. */
  datatype Geometry = Geometry(w: nat, h: nat, kw: nat, kh: nat)

  /** Lowest kernel offset along an axis with k taps: -((k - 1) // 2), with floor division. */
  function Lo(k: nat): int
  {
    -((k - 1) / 2)
  }

  /** Highest kernel offset along an axis with k taps. */
  function Hi(k: nat): int
  {
    k / 2
  }

  /** Offset k lies in the kernel window along an axis with n taps. */
  predicate InRange(k: int, n: nat)
  {
    Lo(n) <= k <= Hi(n)
  }

  /** Flat index of the field cell reached from cell (i, j) by offset (k, l), wrapping both axes. */
  function InIndex(g: Geometry, i: int, j: int, k: int, l: int): int
    requires g.w > 0 && g.h > 0
  {
    ((i + k) % g.h) * g.w + (j + l) % g.w
  }

  /** Flat index of the kernel entry weighting offset (k, l). */
  function KernIndex(g: Geometry, k: int, l: int): int
  {
    (k + (g.kh - 1) / 2) * g.kw + (l + (g.kw - 1) / 2)
  }

  /** The field and the kernel are long enough for the geometry (they may be longer slices). */
  predicate Fits(g: Geometry, inp: seq<real>, kern: seq<real>)
  {
    |inp| >= g.w * g.h && |kern| >= g.kw * g.kh
  }

  /** The window along an axis with n taps has exactly n offsets. */
  lemma OffsetCount(n: nat)
    ensures Hi(n) - Lo(n) + 1 == n
  {
  }

  /** Row-major addressing of an h-row, w-column grid stays inside the grid. */
  lemma RowMajorBounds(r: int, c: int, w: nat, h: nat)
    requires 0 <= r < h && 0 <= c < w
    ensures 0 <= r * w + c < w * h
  {
    MulMonotone(0, r, w);
    MulMonotone(r + 1, h, w);
  }

  /** Row-major addressing is undone by division and remainder. */
  lemma RowMajorInverse(r: int, c: int, w: nat)
    requires w > 0 && 0 <= c < w
    ensures (r * w + c) / w == r && (r * w + c) % w == c
  {
    DivModUnique(r * w + c, w, r, c);
  }

  /** A flat index below w*h splits into a row below h and a column below w. */
  lemma DivModBounds(t: int, w: nat, h: nat)
    requires 0 <= t < w * h
    ensures w > 0 && 0 <= t / w < h && 0 <= t % w < w && (t / w) * w + t % w == t
  {
    if t / w >= h {
      MulMonotone(h, t / w, w);
    }
  }

  /** Every wrapped input index lies in [0, w*h). */
  lemma InIndexBounds(g: Geometry, i: int, j: int, k: int, l: int)
    requires g.w > 0 && g.h > 0
    ensures 0 <= InIndex(g, i, j, k, l) < g.w * g.h
  {
    RowMajorBounds((i + k) % g.h, (j + l) % g.w, g.w, g.h);
  }

  /** Every kernel index inside the window lies in [0, kw*kh). */
  lemma KernIndexBounds(g: Geometry, k: int, l: int)
    requires InRange(k, g.kh) && InRange(l, g.kw)
    ensures 0 <= KernIndex(g, k, l) < g.kw * g.kh
  {
    RowMajorBounds(k + (g.kh - 1) / 2, l + (g.kw - 1) / 2, g.kw, g.kh);
  }

  /** Distinct window offsets address distinct kernel entries. */
  lemma KernIndexInjective(g: Geometry, k1: int, l1: int, k2: int, l2: int)
    requires InRange(k1, g.kh) && InRange(l1, g.kw) && InRange(k2, g.kh) && InRange(l2, g.kw)
    requires KernIndex(g, k1, l1) == KernIndex(g, k2, l2)
    ensures k1 == k2 && l1 == l2
  {
    RowMajorInverse(k1 + (g.kh - 1) / 2, l1 + (g.kw - 1) / 2, g.kw);
    RowMajorInverse(k2 + (g.kh - 1) / 2, l2 + (g.kw - 1) / 2, g.kw);
  }

  /** Every kernel entry is addressed by some offset of the window. */
  lemma KernIndexOnto(g: Geometry, t: int)
    requires 0 <= t < g.kw * g.kh
    ensures exists k, l :: InRange(k, g.kh) && InRange(l, g.kw) && KernIndex(g, k, l) == t
  {
    DivModBounds(t, g.kw, g.kh);
    var k := t / g.kw - (g.kh - 1) / 2;
    var l := t % g.kw - (g.kw - 1) / 2;
    assert InRange(k, g.kh) && InRange(l, g.kw);
    assert KernIndex(g, k, l) == (t / g.kw) * g.kw + t % g.kw;
  }

  /** The summand of one kernel row k at cell (i, j): offset l contributes kernel weight times wrapped input. */
  function TermAt(g: Geometry, inp: seq<real>, kern: seq<real>, i: int, j: int, k: int): int -> real
    requires Fits(g, inp, kern)
  {
    l =>
      if g.w > 0 && g.h > 0 && InRange(k, g.kh) && InRange(l, g.kw) then
        KernIndexBounds(g, k, l);
        InIndexBounds(g, i, j, k, l);
        kern[KernIndex(g, k, l)] * inp[InIndex(g, i, j, k, l)]
      else 0.0
  }

  /** The per-row partial sums at cell (i, j). */
  function RowsAt(g: Geometry, inp: seq<real>, kern: seq<real>, i: int, j: int): int -> real
    requires Fits(g, inp, kern)
  {
    k => Sigma(TermAt(g, inp, kern, i, j, k), Lo(g.kw), Hi(g.kw))
  }

  /** The correlation value at cell (i, j): the kernel-weighted sum over the wrapped window. */
  function Cell(g: Geometry, inp: seq<real>, kern: seq<real>, i: int, j: int): real
    requires Fits(g, inp, kern)
  {
    Sigma(RowsAt(g, inp, kern, i, j), Lo(g.kh), Hi(g.kh))
  }

  /**
   * Correlate_2d_cyclic_python: the first w*h entries of out become the
   * correlation of the field with one shared kernel; later entries of out are kept.
   */
  function CorrelateCyclic(g: Geometry, inp: seq<real>, kern: seq<real>, out: seq<real>): (r: seq<real>)
    requires Fits(g, inp, kern) && |out| >= g.w * g.h
    ensures |r| == |out|
    ensures forall t :: g.w * g.h <= t < |out| ==> r[t] == out[t]
  {
    seq(|out|, t requires 0 <= t < |out| =>
          if t < g.w * g.h then Cell(g, inp, kern, t / g.w, t % g.w) else out[t])
  }

  /** Output cell (i, j) of a correlation, at flat position i*w + j, holds the window sum for (i, j). */
  lemma CorrelateCyclicCell(g: Geometry, inp: seq<real>, kern: seq<real>, out: seq<real>, i: int, j: int)
    requires Fits(g, inp, kern) && |out| >= g.w * g.h
    requires 0 <= i < g.h && 0 <= j < g.w
    ensures 0 <= i * g.w + j < g.w * g.h
    ensures CorrelateCyclic(g, inp, kern, out)[i * g.w + j] == Cell(g, inp, kern, i, j)
  {
    RowMajorBounds(i, j, g.w, g.h);
    RowMajorInverse(i, j, g.w);
  }

  /** A correlation result is determined by its cells: a vector whose every cell holds the window sum is the output. */
  lemma CorrelateCyclicAll(g: Geometry, inp: seq<real>, kern: seq<real>, out: seq<real>, want: seq<real>)
    requires Fits(g, inp, kern) && |out| == g.w * g.h && |want| == |out|
    requires forall i, j :: 0 <= i < g.h && 0 <= j < g.w ==>
               0 <= i * g.w + j < |want| && Cell(g, inp, kern, i, j) == want[i * g.w + j]
    ensures CorrelateCyclic(g, inp, kern, out) == want
  {
    var r := CorrelateCyclic(g, inp, kern, out);
    forall t | 0 <= t < |r|
      ensures r[t] == want[t]
    {
      DivModBounds(t, g.w, g.h);
      var i, j := t / g.w, t % g.w;
      assert i * g.w + j == t;
      CorrelateCyclicCell(g, inp, kern, out, i, j);
      assert Cell(g, inp, kern, i, j) == want[i * g.w + j];
    }
  }

  /**
   * Correlate_2d_Uni_cyclic of correlation.py: the same loops, with the wrapped
   * row and column written (y + i + k) % y and (x + j + l) % x. It computes
   * exactly the shared-kernel correlation, leaving kern and in_matrix untouched
   * and writing each of the x*y output cells once.
   */
  method CorrelateUniCyclic(inMatrix: seq<real>, kern: seq<real>, x: nat, y: nat, kx: nat, ky: nat, out: seq<real>)
    returns (r: seq<real>)
    requires Fits(Geometry(x, y, kx, ky), inMatrix, kern) && |out| >= x * y
    ensures r == CorrelateCyclic(Geometry(x, y, kx, ky), inMatrix, kern, out)
  {
    var g := Geometry(x, y, kx, ky);
    ghost var want := CorrelateCyclic(g, inMatrix, kern, out);
    var pkern := kern;
    r := out;
    var i, ij := 0, 0;
    while i < y
      invariant 0 <= i <= y && ij == i * x && ij <= x * y
      invariant |r| == |out|
      invariant forall t :: 0 <= t < ij ==> r[t] == want[t]
      invariant forall t :: ij <= t < |out| ==> r[t] == out[t]
    {
      var j := 0;
      while j < x
        invariant 0 <= j <= x && ij == i * x + j && ij <= x * y
        invariant |r| == |out|
        invariant forall t :: 0 <= t < ij ==> r[t] == want[t]
        invariant forall t :: ij <= t < |out| ==> r[t] == out[t]
      {
        var h := UniWindow(g, inMatrix, pkern, i, j);
        CorrelateCyclicCell(g, inMatrix, kern, out, i, j);
        r := r[i * x + j := h];
        j, ij := j + 1, ij + 1;
      }
      assert ij == (i + 1) * x;
      MulMonotone(i + 1, y, x);
      i := i + 1;
    }
    assert ij == x * y;
  }

  /** The two inner loops of Correlate_2d_Uni_cyclic: the window sum h for output cell (i, j). */
  method UniWindow(g: Geometry, inMatrix: seq<real>, pkern: seq<real>, i: nat, j: nat) returns (h: real)
    requires Fits(g, inMatrix, pkern) && g.w > 0 && g.h > 0
    ensures h == Cell(g, inMatrix, pkern, i, j)
  {
    var upper: int, lower: int := -((g.kh - 1) / 2), g.kh / 2;
    h := 0.0;
    var k := upper;
    while k < lower + 1
      invariant upper <= k <= lower + 1
      invariant h == Sigma(RowsAt(g, inMatrix, pkern, i, j), upper, k - 1)
    {
      var row := UniRow(g, inMatrix, pkern, i, j, k);
      h := h + row;
      k := k + 1;
    }
  }

  /** The innermost loop of Correlate_2d_Uni_cyclic: kernel row k's contribution to cell (i, j). */
  method UniRow(g: Geometry, inMatrix: seq<real>, pkern: seq<real>, i: nat, j: nat, k: int) returns (h: real)
    requires Fits(g, inMatrix, pkern) && g.w > 0 && g.h > 0 && InRange(k, g.kh)
    ensures h == RowsAt(g, inMatrix, pkern, i, j)(k)
  {
    var left: int, right: int := -((g.kw as int - 1) / 2), g.kw / 2;
    assert left == Lo(g.kw) && right == Hi(g.kw);
    h := 0.0;
    var l := left;
    while l < right + 1
      invariant left <= l <= right + 1
      invariant h == Sigma(TermAt(g, inMatrix, pkern, i, j, k), left, l - 1)
    {
      h := h + UniSummand(g, inMatrix, pkern, i, j, k, l);
      l := l + 1;
    }
  }

  /**
   * The summand UniRow adds for offset l, with the indices written as
   * Correlate_2d_Uni_cyclic writes them: the input row (y + i + k) % y, the
   * input column (x + j + l) % x, and the kernel entry (k - upper) * kx + (l - left).
   */
  function UniSummand(g: Geometry, inp: seq<real>, kern: seq<real>, i: int, j: int, k: int, l: int): (r: real)
    requires Fits(g, inp, kern) && g.w > 0 && g.h > 0 && InRange(k, g.kh) && InRange(l, g.kw)
    ensures r == TermAt(g, inp, kern, i, j, k)(l)
  {
    UniTerm(g, inp, kern, i, j, k, l);
    kern[(k - Lo(g.kh)) * g.kw + (l - Lo(g.kw))] * inp[((g.h + i + k) % g.h) * g.w + (g.w + j + l) % g.w]
  }

  /** One summand of UniRow, with the indices written as the loop computes them, is the window term. */
  lemma UniTerm(g: Geometry, inp: seq<real>, kern: seq<real>, i: int, j: int, k: int, l: int)
    requires Fits(g, inp, kern) && g.w > 0 && g.h > 0 && InRange(k, g.kh) && InRange(l, g.kw)
    ensures 0 <= (k - Lo(g.kh)) * g.kw + (l - Lo(g.kw)) < |kern|
    ensures 0 <= ((g.h + i + k) % g.h) * g.w + (g.w + j + l) % g.w < |inp|
    ensures TermAt(g, inp, kern, i, j, k)(l)
         == kern[(k - Lo(g.kh)) * g.kw + (l - Lo(g.kw))] * inp[((g.h + i + k) % g.h) * g.w + (g.w + j + l) % g.w]
  {
    WrapAhead(i + k, g.h);
    WrapAhead(j + l, g.w);
    KernIndexBounds(g, k, l);
    InIndexBounds(g, i, j, k, l);
  }

  /** Inside the window, a summand is the kernel entry at KernIndex times the field entry at InIndex. */
  lemma TermAtIs(g: Geometry, inp: seq<real>, kern: seq<real>, i: int, j: int, k: int, l: int)
    requires Fits(g, inp, kern) && g.w > 0 && g.h > 0 && InRange(k, g.kh) && InRange(l, g.kw)
    ensures 0 <= KernIndex(g, k, l) < |kern| && 0 <= InIndex(g, i, j, k, l) < |inp|
    ensures TermAt(g, inp, kern, i, j, k)(l) == kern[KernIndex(g, k, l)] * inp[InIndex(g, i, j, k, l)]
  {
    KernIndexBounds(g, k, l);
    InIndexBounds(g, i, j, k, l);
  }

  /** Adding one full period before wrapping does not move the wrapped position. */
  lemma WrapAhead(t: int, n: nat)
    requires n > 0
    ensures (n + t) % n == t % n
  {
    ModPeriod(t, n);
    assert n + t == t + n;
  }

  /**
   * Correlate_2d_cyclic_original_C: the same window sum, but output cell
   * i*x + j is weighted by its own kernel kerns[i*x + j].
   */
  function CorrelatePerCell(g: Geometry, inp: seq<real>, kerns: seq<seq<real>>, out: seq<real>): (r: seq<real>)
    requires |inp| >= g.w * g.h && |kerns| >= g.w * g.h && |out| >= g.w * g.h
    requires forall c :: 0 <= c < |kerns| ==> |kerns[c]| >= g.kw * g.kh
    ensures |r| == |out|
    ensures forall t :: g.w * g.h <= t < |out| ==> r[t] == out[t]
  {
    seq(|out|, t requires 0 <= t < |out| =>
          if t < g.w * g.h then Cell(g, inp, kerns[t], t / g.w, t % g.w) else out[t])
  }

  /** When every cell's kernel is the same kernel, the per-cell variant is the shared-kernel correlation. */
  lemma SharedKernelAgrees(g: Geometry, inp: seq<real>, kern: seq<real>, kerns: seq<seq<real>>, out: seq<real>)
    requires Fits(g, inp, kern) && |kerns| >= g.w * g.h && |out| >= g.w * g.h
    requires forall c :: 0 <= c < |kerns| ==> kerns[c] == kern
    ensures CorrelatePerCell(g, inp, kerns, out) == CorrelateCyclic(g, inp, kern, out)
  {
  }

  /**
   * The shared-kernel correlation has no per-cell block offset: every output
   * cell reads the same kernel entries, so each of cell (i, j)'s values comes
   * from the kernel at index KernIndex(k, l) and nowhere else. Two kernels that
   * agree on the first kw*kh entries give the same output.
   */
  lemma KernelPrefixDetermines(g: Geometry, inp: seq<real>, kern1: seq<real>, kern2: seq<real>, out: seq<real>)
    requires Fits(g, inp, kern1) && Fits(g, inp, kern2) && |out| >= g.w * g.h
    requires kern1[..g.kw * g.kh] == kern2[..g.kw * g.kh]
    ensures CorrelateCyclic(g, inp, kern1, out) == CorrelateCyclic(g, inp, kern2, out)
  {
    var r1, r2 := CorrelateCyclic(g, inp, kern1, out), CorrelateCyclic(g, inp, kern2, out);
    forall t | 0 <= t < g.w * g.h
      ensures r1[t] == r2[t]
    {
      DivModBounds(t, g.w, g.h);
      var i, j := t / g.w, t % g.w;
      CorrelateCyclicCell(g, inp, kern1, out, i, j);
      CorrelateCyclicCell(g, inp, kern2, out, i, j);
      KernelPrefixCell(g, inp, kern1, kern2, i, j);
    }
  }

  /** One cell of KernelPrefixDetermines: the window sum reads only the first kw*kh kernel entries. */
  lemma KernelPrefixCell(g: Geometry, inp: seq<real>, kern1: seq<real>, kern2: seq<real>, i: int, j: int)
    requires Fits(g, inp, kern1) && Fits(g, inp, kern2)
    requires kern1[..g.kw * g.kh] == kern2[..g.kw * g.kh]
    ensures Cell(g, inp, kern1, i, j) == Cell(g, inp, kern2, i, j)
  {
    forall k | InRange(k, g.kh)
      ensures RowsAt(g, inp, kern1, i, j)(k) == RowsAt(g, inp, kern2, i, j)(k)
    {
      forall l | InRange(l, g.kw)
        ensures TermAt(g, inp, kern1, i, j, k)(l) == TermAt(g, inp, kern2, i, j, k)(l)
      {
        KernIndexBounds(g, k, l);
        assert kern1[KernIndex(g, k, l)] == kern1[..g.kw * g.kh][KernIndex(g, k, l)];
      }
      SigmaExt(TermAt(g, inp, kern1, i, j, k), TermAt(g, inp, kern2, i, j, k), Lo(g.kw), Hi(g.kw));
    }
    SigmaExt(RowsAt(g, inp, kern1, i, j), RowsAt(g, inp, kern2, i, j), Lo(g.kh), Hi(g.kh));
  }

  /** Row r of the field, read as a function of the column (zero outside the grid). */
  function FieldRow(inp: seq<real>, w: nat, h: nat, r: int): int -> real
    requires |inp| >= w * h
  {
    c =>
      if 0 <= r < h && 0 <= c < w then
        RowMajorBounds(r, c, w, h);
        inp[r * w + c]
      else 0.0
  }

  /** The total of each field row, as a function of the row. */
  function RowTotals(inp: seq<real>, w: nat, h: nat): int -> real
    requires |inp| >= w * h
  {
    r => Sigma(FieldRow(inp, w, h, r), 0, w - 1)
  }

  /** Row r of the field scaled by c. */
  function ScaledRow(inp: seq<real>, w: nat, h: nat, r: int, c: real): int -> real
    requires |inp| >= w * h
  {
    t => c * FieldRow(inp, w, h, r)(t)
  }

  /** The row totals scaled by c. */
  function ScaledTotals(inp: seq<real>, w: nat, h: nat, c: real): int -> real
    requires |inp| >= w * h
  {
    r => c * RowTotals(inp, w, h)(r)
  }

  /** The first m rows of a w-column field sum to the total of its first m*w entries. */
  lemma {:induction false} FieldTotal(inp: seq<real>, w: nat, h: nat, m: nat)
    requires |inp| >= w * h && m <= h
    ensures m * w <= |inp|
    ensures Sum(inp[..m * w]) == Sigma(RowTotals(inp, w, h), 0, m - 1)
  {
    MulMonotone(m, h, w);
    if m > 0 {
      FieldTotal(inp, w, h, m - 1);
      var lo := (m - 1) * w;
      assert lo + w == m * w;
      assert inp[..m * w] == inp[..lo] + inp[lo..m * w];
      SumConcat(inp[..lo], inp[lo..m * w]);
      SumIsSigma(inp[lo..m * w], FieldRow(inp, w, h, m - 1));
    } else {
      assert inp[..m * w] == [];
    }
  }

  /**
   * A uniform kernel of weight c covering the whole w*h field gives every
   * output cell the same value, c times the total of the field.
   */
  lemma UniformKernelCell(g: Geometry, inp: seq<real>, kern: seq<real>, c: real, i: int, j: int)
    requires Fits(g, inp, kern) && |inp| == g.w * g.h && g.w > 0 && g.h > 0 && g.kw == g.w && g.kh == g.h
    requires forall t :: 0 <= t < g.kw * g.kh ==> kern[t] == c
    ensures Cell(g, inp, kern, i, j) == c * Sum(inp)
  {
    UniformKernelCellRows(g, inp, kern, c, i, j);
    ScaledFieldTotal(inp, g.w, g.h, c);
  }

  /** Under a uniform whole-field kernel a cell sums the scaled totals of all field rows. */
  lemma UniformKernelCellRows(g: Geometry, inp: seq<real>, kern: seq<real>, c: real, i: int, j: int)
    requires Fits(g, inp, kern) && g.w > 0 && g.h > 0 && g.kw == g.w && g.kh == g.h
    requires forall t :: 0 <= t < g.kw * g.kh ==> kern[t] == c
    ensures Cell(g, inp, kern, i, j) == Sigma(ScaledTotals(inp, g.w, g.h, c), 0, g.h - 1)
  {
    CellRows(g, inp, kern, i, j);
    UniformKernelRows(g, inp, kern, c, i, j);
  }

  /** A cell sums kh kernel rows, starting at the lowest row offset. */
  lemma CellRows(g: Geometry, inp: seq<real>, kern: seq<real>, i: int, j: int)
    requires Fits(g, inp, kern)
    ensures Cell(g, inp, kern, i, j) == Sigma(RowsAt(g, inp, kern, i, j), Lo(g.kh), Lo(g.kh) + g.kh - 1)
  {
    OffsetCount(g.kh);
  }

  /** Scaling every row total of a w*h field by c scales the field total by c. */
  lemma ScaledFieldTotal(inp: seq<real>, w: nat, h: nat, c: real)
    requires |inp| == w * h
    ensures Sigma(ScaledTotals(inp, w, h, c), 0, h - 1) == c * Sum(inp)
  {
    ScaledTotalsSum(inp, w, h, c);
    FieldTotal(inp, w, h, h);
    assert h * w == w * h;
    assert inp[..w * h] == inp;
  }

  /** The rows of UniformKernelCell, visited cyclically from row i, cover every field row once. */
  lemma UniformKernelRows(g: Geometry, inp: seq<real>, kern: seq<real>, c: real, i: int, j: int)
    requires Fits(g, inp, kern) && g.w > 0 && g.h > 0 && g.kw == g.w && g.kh == g.h
    requires forall t :: 0 <= t < g.kw * g.kh ==> kern[t] == c
    ensures Sigma(RowsAt(g, inp, kern, i, j), Lo(g.kh), Lo(g.kh) + g.kh - 1) == Sigma(ScaledTotals(inp, g.w, g.h, c), 0, g.h - 1)
  {
    var w, h := g.w, g.h;
    OffsetCount(h);
    forall k | Lo(h) <= k <= Lo(h) + h - 1
      ensures RowsAt(g, inp, kern, i, j)(k) == ScaledTotals(inp, w, h, c)((i + k) % h)
    {
      UniformKernelRow(g, inp, kern, c, i, j, k);
    }
    SigmaCyclic(RowsAt(g, inp, kern, i, j), ScaledTotals(inp, w, h, c), h, i, Lo(h));
  }

  /** One kernel row of UniformKernelCell: it sums c times one whole (wrapped) field row. */
  lemma UniformKernelRow(g: Geometry, inp: seq<real>, kern: seq<real>, c: real, i: int, j: int, k: int)
    requires Fits(g, inp, kern) && g.w > 0 && g.h > 0 && g.kw == g.w && g.kh == g.h
    requires forall t :: 0 <= t < g.kw * g.kh ==> kern[t] == c
    requires InRange(k, g.kh)
    ensures RowsAt(g, inp, kern, i, j)(k) == ScaledTotals(inp, g.w, g.h, c)((i + k) % g.h)
  {
    var r := (i + k) % g.h;
    calc {
      RowsAt(g, inp, kern, i, j)(k);
    == { RowsAtFullWidth(g, inp, kern, i, j, k); }
      Sigma(TermAt(g, inp, kern, i, j, k), Lo(g.w), Lo(g.w) + g.w - 1);
    == { UniformKernelColumns(g, inp, kern, c, i, j, k); }
      Sigma(ScaledRow(inp, g.w, g.h, r, c), 0, g.w - 1);
    == { ScaledRowSum(inp, g.w, g.h, r, c); }
      c * RowTotals(inp, g.w, g.h)(r);
    == { ScaledTotalsIs(inp, g.w, g.h, c, r, r); }
      ScaledTotals(inp, g.w, g.h, c)(r);
    }
  }

  /** A kernel as wide as the field spans the window Lo(w) .. Lo(w) + w - 1. */
  lemma RowsAtFullWidth(g: Geometry, inp: seq<real>, kern: seq<real>, i: int, j: int, k: int)
    requires Fits(g, inp, kern) && g.kw == g.w
    ensures RowsAt(g, inp, kern, i, j)(k) == Sigma(TermAt(g, inp, kern, i, j, k), Lo(g.w), Lo(g.w) + g.w - 1)
  {
    OffsetCount(g.w);
  }

  /** The columns of one kernel row, visited cyclically from column j, cover every field column once. */
  lemma UniformKernelColumns(g: Geometry, inp: seq<real>, kern: seq<real>, c: real, i: int, j: int, k: int)
    requires Fits(g, inp, kern) && g.w > 0 && g.h > 0 && g.kw == g.w && g.kh == g.h
    requires forall t :: 0 <= t < g.kw * g.kh ==> kern[t] == c
    requires InRange(k, g.kh)
    ensures Sigma(TermAt(g, inp, kern, i, j, k), Lo(g.w), Lo(g.w) + g.w - 1)
         == Sigma(ScaledRow(inp, g.w, g.h, (i + k) % g.h, c), 0, g.w - 1)
  {
    var w, h := g.w, g.h;
    var r := (i + k) % h;
    OffsetCount(w);
    forall l | Lo(w) <= l <= Lo(w) + w - 1
      ensures TermAt(g, inp, kern, i, j, k)(l) == ScaledRow(inp, w, h, r, c)((j + l) % w)
    {
      KernIndexBounds(g, k, l);
      UniformKernelTerm(g, inp, kern, c, i, j, k, l);
    }
    SigmaCyclic(TermAt(g, inp, kern, i, j, k), ScaledRow(inp, w, h, r, c), w, j, Lo(w));
  }

  /** One term of UniformKernelRow: kernel weight c times the wrapped field entry. */
  lemma UniformKernelTerm(g: Geometry, inp: seq<real>, kern: seq<real>, c: real, i: int, j: int, k: int, l: int)
    requires Fits(g, inp, kern) && g.w > 0 && g.h > 0
    requires InRange(k, g.kh) && InRange(l, g.kw)
    requires 0 <= KernIndex(g, k, l) < |kern| && kern[KernIndex(g, k, l)] == c
    ensures TermAt(g, inp, kern, i, j, k)(l) == ScaledRow(inp, g.w, g.h, (i + k) % g.h, c)((j + l) % g.w)
  {
    var r, col := (i + k) % g.h, (j + l) % g.w;
    RowMajorBounds(r, col, g.w, g.h);
    var v := inp[r * g.w + col];
    assert FieldRow(inp, g.w, g.h, r)(col) == v;
    assert TermAt(g, inp, kern, i, j, k)(l) == c * v;
  }

  lemma ScaledRowSum(inp: seq<real>, w: nat, h: nat, r: int, c: real)
    requires |inp| >= w * h
    ensures Sigma(ScaledRow(inp, w, h, r, c), 0, w - 1) == c * RowTotals(inp, w, h)(r)
  {
    SigmaScale(FieldRow(inp, w, h, r), ScaledRow(inp, w, h, r, c), c, 0, w - 1);
  }

  lemma ScaledTotalsSum(inp: seq<real>, w: nat, h: nat, c: real)
    requires |inp| >= w * h
    ensures Sigma(ScaledTotals(inp, w, h, c), 0, h - 1) == c * Sigma(RowTotals(inp, w, h), 0, h - 1)
  {
    ScaledTotalsIs(inp, w, h, c, 0, h - 1);
    SigmaScale(RowTotals(inp, w, h), ScaledTotals(inp, w, h, c), c, 0, h - 1);
  }

  lemma ScaledTotalsIs(inp: seq<real>, w: nat, h: nat, c: real, a: int, b: int)
    requires |inp| >= w * h
    ensures forall t :: a <= t <= b ==> ScaledTotals(inp, w, h, c)(t) == c * RowTotals(inp, w, h)(t)
  {
  }

  /** With a 2x2 kernel the window is offsets 0 and 1 on both axes: four weighted field entries. */
  lemma TwoByTwoCell(g: Geometry, inp: seq<real>, kern: seq<real>, i: int, j: int)
    requires Fits(g, inp, kern) && g.w > 0 && g.h > 0 && g.kw == 2 && g.kh == 2
    ensures 0 <= InIndex(g, i, j, 0, 0) < |inp| && 0 <= InIndex(g, i, j, 0, 1) < |inp|
    ensures 0 <= InIndex(g, i, j, 1, 0) < |inp| && 0 <= InIndex(g, i, j, 1, 1) < |inp|
    ensures Cell(g, inp, kern, i, j)
         == kern[0] * inp[InIndex(g, i, j, 0, 0)] + kern[1] * inp[InIndex(g, i, j, 0, 1)]
          + kern[2] * inp[InIndex(g, i, j, 1, 0)] + kern[3] * inp[InIndex(g, i, j, 1, 1)]
  {
    InIndexBounds(g, i, j, 0, 0);
    InIndexBounds(g, i, j, 0, 1);
    InIndexBounds(g, i, j, 1, 0);
    InIndexBounds(g, i, j, 1, 1);
    var rows := RowsAt(g, inp, kern, i, j);
    assert rows(0) == Sigma(TermAt(g, inp, kern, i, j, 0), 0, 1);
    assert rows(1) == Sigma(TermAt(g, inp, kern, i, j, 1), 0, 1);
    assert Cell(g, inp, kern, i, j) == Sigma(rows, 0, 1);
  }

  /** The field of the worked 3x3 example. */
  function ExampleField(): seq<real>
  {
    [0.2, 0.1, 0.4, 0.04, 0.8, 0.61, 0.37, 0.22, 0.74]
  }

  /** The 2x2 kernel of the worked example. */
  function ExampleKernel(): seq<real>
  {
    [0.8, 0.1, 0.22, 0.51]
  }

  /** The expected result of the worked example. */
  function ExampleOutput(): seq<real>
  {
    [0.5868, 0.6071, 0.4946, 0.3056, 1.1268, 0.8435, 0.413, 0.476, 0.819]
  }

  /** The worked example: the 3x3 field correlated with the 2x2 kernel gives ExampleOutput(). */
  lemma ExampleCorrelation(g: Geometry, inp: seq<real>, kern: seq<real>, out: seq<real>)
    requires g == Geometry(3, 3, 2, 2) && inp == ExampleField() && kern == ExampleKernel()
    requires |out| == 9
    ensures CorrelateCyclic(g, inp, kern, out) == ExampleOutput()
  {
    forall i, j | 0 <= i < g.h && 0 <= j < g.w
      ensures 0 <= i * g.w + j < 9 && Cell(g, inp, kern, i, j) == ExampleOutput()[i * g.w + j]
    {
      ExampleCell(g, inp, kern, i, j);
    }
    CorrelateCyclicAll(g, inp, kern, out, ExampleOutput());
  }

  /** Cell (i, j) of the worked example. */
  lemma ExampleCell(g: Geometry, inp: seq<real>, kern: seq<real>, i: int, j: int)
    requires g == Geometry(3, 3, 2, 2) && inp == ExampleField() && kern == ExampleKernel()
    requires 0 <= i < 3 && 0 <= j < 3
    ensures Cell(g, inp, kern, i, j) == ExampleOutput()[i * 3 + j]
  {
    ExampleValue(inp, i, j);
    ExampleWindow(g, inp, kern, i, j, ExampleOutput()[i * 3 + j]);
  }

  /** Each expected value is the kernel-weighted sum over its wrapped 2x2 window of the field. */
  lemma ExampleValue(inp: seq<real>, i: int, j: int)
    requires inp == ExampleField() && 0 <= i < 3 && 0 <= j < 3
    ensures ExampleOutput()[i * 3 + j]
         == 0.8 * inp[i * 3 + j] + 0.1 * inp[i * 3 + Next3(j)]
          + 0.22 * inp[Next3(i) * 3 + j] + 0.51 * inp[Next3(i) * 3 + Next3(j)]
  {
    if i == 0 {
      if j == 0 {} else if j == 1 {} else {}
    } else if i == 1 {
      if j == 0 {} else if j == 1 {} else {}
    } else {
      if j == 0 {} else if j == 1 {} else {}
    }
  }

  /** The successor of a row or column index of the 3x3 example, wrapping from 2 to 0. */
  function Next3(i: int): (r: int)
    requires 0 <= i < 3
    ensures 0 <= r < 3 && r == (i + 1) % 3
  {
    if i == 2 then 0 else i + 1
  }

  /** Cell (i, j) of the worked example is the kernel-weighted sum of the four entries of its window. */
  lemma ExampleWindow(g: Geometry, inp: seq<real>, kern: seq<real>, i: int, j: int, v: real)
    requires g == Geometry(3, 3, 2, 2) && |inp| == 9 && kern == ExampleKernel()
    requires 0 <= i < 3 && 0 <= j < 3
    requires v == 0.8 * inp[i * 3 + j] + 0.1 * inp[i * 3 + Next3(j)]
                + 0.22 * inp[Next3(i) * 3 + j] + 0.51 * inp[Next3(i) * 3 + Next3(j)]
    ensures Cell(g, inp, kern, i, j) == v
  {
    TwoByTwoCell(g, inp, kern, i, j);
    ExampleTerms(g, inp, kern, i, j, v);
  }

  lemma ExampleTerms(g: Geometry, inp: seq<real>, kern: seq<real>, i: int, j: int, v: real)
    requires g == Geometry(3, 3, 2, 2) && |inp| == 9 && kern == ExampleKernel()
    requires 0 <= i < 3 && 0 <= j < 3
    requires v == 0.8 * inp[i * 3 + j] + 0.1 * inp[i * 3 + Next3(j)]
                + 0.22 * inp[Next3(i) * 3 + j] + 0.51 * inp[Next3(i) * 3 + Next3(j)]
    ensures v == kern[0] * inp[InIndex(g, i, j, 0, 0)] + kern[1] * inp[InIndex(g, i, j, 0, 1)]
               + kern[2] * inp[InIndex(g, i, j, 1, 0)] + kern[3] * inp[InIndex(g, i, j, 1, 1)]
  {
    ExampleIndex(g, i, j);
  }

  lemma ExampleIndex(g: Geometry, i: int, j: int)
    requires g == Geometry(3, 3, 2, 2) && 0 <= i < 3 && 0 <= j < 3
    ensures InIndex(g, i, j, 0, 0) == i * 3 + j
    ensures InIndex(g, i, j, 0, 1) == i * 3 + Next3(j)
    ensures InIndex(g, i, j, 1, 0) == Next3(i) * 3 + j
    ensures InIndex(g, i, j, 1, 1) == Next3(i) * 3 + Next3(j)
  {
    assert g.w == 3 && g.h == 3;
    assert i % 3 == i && j % 3 == j;
  }
}
