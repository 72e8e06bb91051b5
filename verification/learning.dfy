/**
 * The Hebbian learning rule of standardNet6Areas.c (train_projection_cyclic,
 * lines 609-673). Every existing synapse of a projection kernel bank is
 * updated from the firing rate of its presynaptic cell and the membrane
 * potential of its postsynaptic cell:
 *   - post above LTP_THRESH and pre above F_THRESH: potentiation by hrate,
 *     but only while the weight is below JMAX;
 *   - post above LTP_THRESH and pre at most F_THRESH: depression by hrate,
 *     floored at JMIN, when the weight is above JMIN;
 *   - post at most LTP_THRESH, pre above F_THRESH and post above LTD_THRESH:
 *     the same depression;
 *   - otherwise, and for absent synapses (NO_SYNAPSE), nothing.
 * The amounts of potentiation and depression are added to running totals.
 */
module Learning {
  import opened Params
  import opened Sums
  import opened Correlation

  /** The new weight of one synapse and the amounts added to the LTP and LTD totals. */
  datatype Update = Update(w: real, ltp: real, ltd: real)

  /** Depression by hrate, never below JMIN. */
  function Depress(w: real, hrate: real): (r: real)
    ensures r >= JMIN
    ensures w - hrate >= JMIN ==> r == w - hrate
  {
    if w - hrate < JMIN then JMIN else w - hrate
  }

  /** The learning rule applied to one synapse of weight w (the body of the innermost loop). */
  function UpdateSynapse(w: real, pre: real, post: real, hrate: real): (u: Update)
    ensures w == NO_SYNAPSE ==> u == Update(w, 0.0, 0.0)
    ensures u.ltp == 0.0 || u.ltd == 0.0
    ensures u.ltp != 0.0 ==> u.ltp == hrate && u.w == w + hrate && w < JMAX
    ensures u.ltd != 0.0 ==> u.ltd == hrate && u.w == Depress(w, hrate) && w > JMIN
    ensures u.ltp == 0.0 && u.ltd == 0.0 && hrate != 0.0 ==> u.w == w
  {
    if w == NO_SYNAPSE then Update(w, 0.0, 0.0)
    else if post > LTP_THRESH then
      if pre > F_THRESH then
        if w < JMAX then Update(w + hrate, hrate, 0.0) else Update(w, 0.0, 0.0)
      else if w > JMIN then Update(Depress(w, hrate), 0.0, hrate)
      else Update(w, 0.0, 0.0)
    else if pre > F_THRESH && post > LTD_THRESH && w > JMIN then Update(Depress(w, hrate), 0.0, hrate)
    else Update(w, 0.0, 0.0)
  }

  /** The rule's potentiation condition: an existing synapse below JMAX between an active pair. */
  predicate Potentiates(w: real, pre: real, post: real)
  {
    w != NO_SYNAPSE && post > LTP_THRESH && pre > F_THRESH && w < JMAX
  }

  /**
   * The rule's depression condition. With LTD_THRESH equal to LTP_THRESH the
   * second LTD branch can never fire, so depression needs a high
   * postsynaptic potential with a silent presynaptic cell.
   */
  predicate Depresses(w: real, pre: real, post: real)
  {
    w != NO_SYNAPSE && post > LTP_THRESH && pre <= F_THRESH && w > JMIN
  }

  /**
   * With a positive rate a weight rises exactly when the potentiation
   * condition holds and falls exactly when the depression condition holds;
   * otherwise it stays.
   */
  lemma UpdateCharacterised(w: real, pre: real, post: real, hrate: real)
    requires hrate > 0.0
    ensures UpdateSynapse(w, pre, post, hrate).w > w <==> Potentiates(w, pre, post)
    ensures UpdateSynapse(w, pre, post, hrate).w < w <==> Depresses(w, pre, post)
    ensures UpdateSynapse(w, pre, post, hrate).w == w <==> !Potentiates(w, pre, post) && !Depresses(w, pre, post)
    ensures UpdateSynapse(w, pre, post, hrate).ltp > 0.0 <==> Potentiates(w, pre, post)
    ensures UpdateSynapse(w, pre, post, hrate).ltd > 0.0 <==> Depresses(w, pre, post)
  {
    if post <= LTP_THRESH {
      LowPotentialNoChange(w, pre, post, hrate);
    }
  }

  /** A postsynaptic potential at most LTP_THRESH leaves the synapse and the totals alone. */
  lemma LowPotentialNoChange(w: real, pre: real, post: real, hrate: real)
    requires post <= LTP_THRESH
    ensures UpdateSynapse(w, pre, post, hrate) == Update(w, 0.0, 0.0)
  {
    assert LTD_THRESH == LTP_THRESH;
  }

  /**
   * With a non-negative rate the learning rule keeps every weight that
   * starts in [JMIN, infinity) there, so a present synapse never decays into
   * NO_SYNAPSE; the contributions to the totals are non-negative.
   */
  lemma UpdateKeepsRange(w: real, pre: real, post: real, hrate: real)
    requires hrate >= 0.0
    ensures UpdateSynapse(w, pre, post, hrate).ltp >= 0.0 && UpdateSynapse(w, pre, post, hrate).ltd >= 0.0
    ensures w >= JMIN ==> UpdateSynapse(w, pre, post, hrate).w >= JMIN > NO_SYNAPSE
    ensures UpdateSynapse(w, pre, post, hrate).w < w ==> UpdateSynapse(w, pre, post, hrate).w >= JMIN
    ensures UpdateSynapse(w, pre, post, hrate).w > w ==> w < JMAX
  {
  }

  // ---------------------------------------------------------------------
  // Presynaptic indexing

  /** C's `%` for a positive divisor: the remainder takes the sign of the dividend. */
  function CRem(a: int, n: int): (r: int)
    requires n > 0
    ensures a >= 0 ==> 0 <= r < n
    ensures -n < r < n
  {
    if a >= 0 then a % n else -((-a) % n)
  }

  /** The presynaptic cell m = ((i+k+ny)%ny)*nx + (j+l+nx)%nx of the source, with C's remainder. */
  function PreIndex(g: Geometry, i: int, j: int, k: int, l: int): int
    requires g.w > 0 && g.h > 0
  {
    CRem(i + k + g.h, g.h) * g.w + CRem(j + l + g.w, g.w)
  }

  /**
   * Whenever the shifted coordinates i+k+ny and j+l+nx are not negative (for
   * a cell of the area: offsets no longer than the area), the presynaptic
   * index is the correlation's wrapped index, so it lies in [0, nx*ny):
   * learning reads the cell whose rate the correlation weights.
   */
  lemma PreIndexIsInIndex(g: Geometry, i: int, j: int, k: int, l: int)
    requires g.w > 0 && g.h > 0
    requires i + k + g.h >= 0 && j + l + g.w >= 0
    ensures PreIndex(g, i, j, k, l) == InIndex(g, i, j, k, l)
    ensures 0 <= PreIndex(g, i, j, k, l) < g.w * g.h
  {
    ModPeriod(i + k, g.h);
    ModPeriod(j + l, g.w);
    InIndexBounds(g, i, j, k, l);
  }

  // ---------------------------------------------------------------------
  // train_projection_cyclic: the rolling kernel pointer

  /** The number of taps the learning loops walk along an axis with n kernel entries: -n/2..n/2. */
  function Span(n: nat): (r: nat)
    ensures r >= 1 && (n % 2 == 1 ==> r == n)
  {
    2 * (n / 2) + 1
  }

  /** The number of kernel entries the rolling pointer steps over for the whole area. */
  function Visits(g: Geometry): nat
  {
    g.w * g.h * Span(g.kh) * Span(g.kw)
  }

  /**
   * The value of the rolling pointer kern (relative to the start of the bank)
   * when the loops are at cell ij and offsets (k, l).
   */
  function Pos(g: Geometry, ij: int, k: int, l: int): int
  {
    (ij * Span(g.kh) + (k + g.kh / 2)) * Span(g.kw) + (l + g.kw / 2)
  }

  /** What train_projection_cyclic needs of its arguments: offsets no longer than the area, long enough vectors. */
  predicate TrainArgs(J: seq<real>, pre: seq<real>, post: seq<real>, g: Geometry)
  {
    g.kh / 2 <= g.h && g.kw / 2 <= g.w && |pre| >= g.w * g.h && |post| >= g.w * g.h && |J| >= Visits(g)
  }

  /** The loop state the pointer position t corresponds to: cell ij = (i, j) and offsets (k, l). */
  datatype Visit = Visit(ij: int, i: int, j: int, k: int, l: int)

  /** Decodes a pointer position into the cell and the offsets the loops are at when the pointer gets there. */
  function Decode(g: Geometry, t: int): Visit
    requires g.w > 0
  {
    var ij := (t / Span(g.kw)) / Span(g.kh);
    Visit(ij, ij / g.w, ij % g.w, (t / Span(g.kw)) % Span(g.kh) - g.kh / 2, t % Span(g.kw) - g.kw / 2)
  }

  /** Every pointer position decodes to a cell of the area and offsets inside the walked window. */
  lemma DecodeBounds(g: Geometry, t: int)
    requires 0 <= t < Visits(g)
    ensures g.w > 0 && g.h > 0
    ensures 0 <= Decode(g, t).i < g.h && 0 <= Decode(g, t).j < g.w
    ensures Decode(g, t).ij == Decode(g, t).i * g.w + Decode(g, t).j && 0 <= Decode(g, t).ij < g.w * g.h
    ensures -(g.kh / 2) <= Decode(g, t).k <= g.kh / 2 && -(g.kw / 2) <= Decode(g, t).l <= g.kw / 2
  {
    var sw := Span(g.kw);
    var sh := Span(g.kh);
    DivModBounds(t, sw, g.w * g.h * sh);
    DivModBounds(t / sw, sh, g.w * g.h);
    DivModBounds((t / sw) / sh, g.w, g.h);
  }

  /** Decoding the pointer value of the loops at cell (i, j) and offsets (k, l) gives them back. */
  lemma DecodePos(g: Geometry, i: int, j: int, k: int, l: int)
    requires g.w > 0 && 0 <= i < g.h && 0 <= j < g.w
    requires -(g.kh / 2) <= k <= g.kh / 2 && -(g.kw / 2) <= l <= g.kw / 2
    ensures 0 <= Pos(g, i * g.w + j, k, l) < Visits(g)
    ensures Decode(g, Pos(g, i * g.w + j, k, l)) == Visit(i * g.w + j, i, j, k, l)
  {
    var sw := Span(g.kw);
    var sh := Span(g.kh);
    var ij := i * g.w + j;
    RowMajorBounds(i, j, g.w, g.h);
    RowMajorBounds(ij, k + g.kh / 2, sh, g.w * g.h);
    RowMajorBounds(ij * sh + (k + g.kh / 2), l + g.kw / 2, sw, g.w * g.h * sh);
    RowMajorInverse(ij * sh + (k + g.kh / 2), l + g.kw / 2, sw);
    RowMajorInverse(ij, k + g.kh / 2, sh);
    RowMajorInverse(i, j, g.w);
  }

  /**
   * The update the source applies at pointer position t: the rule applied
   * to the entry at t with the rate of the presynaptic cell m and the
   * potential of the cell ij the loops are at.
   */
  function VisitUpdate(J: seq<real>, pre: seq<real>, post: seq<real>, g: Geometry, hrate: real, t: int): Update
    requires TrainArgs(J, pre, post, g) && 0 <= t < Visits(g)
  {
    DecodeBounds(g, t);
    var d := Decode(g, t);
    PreIndexIsInIndex(g, d.i, d.j, d.k, d.l);
    UpdateSynapse(J[t], pre[PreIndex(g, d.i, d.j, d.k, d.l)], post[d.ij], hrate)
  }

  /** At cell (i, j) and offsets (k, l) of the loops, the pointer's update is the rule applied to pre[m] and post[ij]. */
  lemma VisitAt(J: seq<real>, pre: seq<real>, post: seq<real>, g: Geometry, hrate: real, i: int, j: int, k: int, l: int)
    requires TrainArgs(J, pre, post, g)
    requires 0 <= i < g.h && 0 <= j < g.w
    requires -(g.kh / 2) <= k <= g.kh / 2 && -(g.kw / 2) <= l <= g.kw / 2
    ensures 0 <= Pos(g, i * g.w + j, k, l) < Visits(g)
    ensures 0 <= PreIndex(g, i, j, k, l) < g.w * g.h && 0 <= i * g.w + j < g.w * g.h
    ensures VisitUpdate(J, pre, post, g, hrate, Pos(g, i * g.w + j, k, l))
         == UpdateSynapse(J[Pos(g, i * g.w + j, k, l)], pre[PreIndex(g, i, j, k, l)], post[i * g.w + j], hrate)
  {
    DecodePos(g, i, j, k, l);
    PreIndexIsInIndex(g, i, j, k, l);
    RowMajorBounds(i, j, g.w, g.h);
    var d := Decode(g, Pos(g, i * g.w + j, k, l));
    assert d.i == i && d.j == j && d.k == k && d.l == l && d.ij == i * g.w + j;
  }

  /** With a non-negative rate, each pointer update keeps the weight range and adds non-negative amounts to the totals. */
  lemma VisitUpdateKeepsRange(J: seq<real>, pre: seq<real>, post: seq<real>, g: Geometry, hrate: real, t: int)
    requires TrainArgs(J, pre, post, g) && 0 <= t < Visits(g) && hrate >= 0.0
    ensures VisitUpdate(J, pre, post, g, hrate, t).ltp >= 0.0 && VisitUpdate(J, pre, post, g, hrate, t).ltd >= 0.0
    ensures J[t] >= JMIN ==> VisitUpdate(J, pre, post, g, hrate, t).w >= JMIN
    ensures J[t] == NO_SYNAPSE ==> VisitUpdate(J, pre, post, g, hrate, t).w == NO_SYNAPSE
  {
    DecodeBounds(g, t);
    var d := Decode(g, t);
    PreIndexIsInIndex(g, d.i, d.j, d.k, d.l);
    UpdateKeepsRange(J[t], pre[PreIndex(g, d.i, d.j, d.k, d.l)], post[d.ij], hrate);
  }

  /**
   * The bank train_projection_cyclic leaves behind: every entry the pointer
   * walks over gets its update, the rest of the bank is as before.
   */
  function Trained(J: seq<real>, pre: seq<real>, post: seq<real>, g: Geometry, hrate: real): (r: seq<real>)
    requires TrainArgs(J, pre, post, g)
    ensures |r| == |J|
    ensures forall t :: Visits(g) <= t < |J| ==> r[t] == J[t]
    ensures forall t :: 0 <= t < |J| && J[t] == NO_SYNAPSE ==> r[t] == NO_SYNAPSE
  {
    seq(|J|, t requires 0 <= t < |J| => if t < Visits(g) then VisitUpdate(J, pre, post, g, hrate, t).w else J[t])
  }

  /** With a non-negative rate, training keeps every weight at or above JMIN there. */
  lemma TrainedKeepsRange(J: seq<real>, pre: seq<real>, post: seq<real>, g: Geometry, hrate: real)
    requires TrainArgs(J, pre, post, g) && hrate >= 0.0
    ensures forall t :: 0 <= t < |J| && J[t] >= JMIN ==> Trained(J, pre, post, g, hrate)[t] >= JMIN
  {
    forall t | 0 <= t < |J| && J[t] >= JMIN
      ensures Trained(J, pre, post, g, hrate)[t] >= JMIN
    {
      if t < Visits(g) {
        VisitUpdateKeepsRange(J, pre, post, g, hrate, t);
      }
    }
  }

  /** The weight the pointer's update leaves at t (zero outside the walked range). */
  function WeightOf(J: seq<real>, pre: seq<real>, post: seq<real>, g: Geometry, hrate: real): int -> real
    requires TrainArgs(J, pre, post, g)
  {
    t => if 0 <= t < Visits(g) then VisitUpdate(J, pre, post, g, hrate, t).w else 0.0
  }

  /** The amount the pointer's update at t adds to the LTP total (zero outside the walked range). */
  function LtpOf(J: seq<real>, pre: seq<real>, post: seq<real>, g: Geometry, hrate: real): int -> real
    requires TrainArgs(J, pre, post, g)
  {
    t => if 0 <= t < Visits(g) then VisitUpdate(J, pre, post, g, hrate, t).ltp else 0.0
  }

  /** The amount the pointer's update at t adds to the LTD total (zero outside the walked range). */
  function LtdOf(J: seq<real>, pre: seq<real>, post: seq<real>, g: Geometry, hrate: real): int -> real
    requires TrainArgs(J, pre, post, g)
  {
    t => if 0 <= t < Visits(g) then VisitUpdate(J, pre, post, g, hrate, t).ltd else 0.0
  }

  /** The closures' values at the pointer position of cell (i, j) and offsets (k, l). */
  lemma StepValues(J: seq<real>, pre: seq<real>, post: seq<real>, g: Geometry, hrate: real,
                   i: int, j: int, ij: int, k: int, l: int, t: int)
    requires TrainArgs(J, pre, post, g)
    requires 0 <= i < g.h && 0 <= j < g.w && ij == i * g.w + j
    requires -(g.kh / 2) <= k <= g.kh / 2 && -(g.kw / 2) <= l <= g.kw / 2
    requires t == Pos(g, ij, k, l)
    ensures 0 <= t < Visits(g) && 0 <= PreIndex(g, i, j, k, l) < g.w * g.h && 0 <= ij < g.w * g.h
    ensures Update(WeightOf(J, pre, post, g, hrate)(t), LtpOf(J, pre, post, g, hrate)(t), LtdOf(J, pre, post, g, hrate)(t))
         == UpdateSynapse(J[t], pre[PreIndex(g, i, j, k, l)], post[ij], hrate)
  {
    VisitAt(J, pre, post, g, hrate, i, j, k, l);
  }

  /** With a non-negative rate the LTP and LTD totals of a pass only grow. */
  lemma TrainTotalsGrow(J: seq<real>, pre: seq<real>, post: seq<real>, g: Geometry, hrate: real)
    requires TrainArgs(J, pre, post, g) && hrate >= 0.0
    ensures Sigma(LtpOf(J, pre, post, g, hrate), 0, Visits(g) - 1) >= 0.0
    ensures Sigma(LtdOf(J, pre, post, g, hrate), 0, Visits(g) - 1) >= 0.0
  {
    forall t | 0 <= t <= Visits(g) - 1
      ensures LtpOf(J, pre, post, g, hrate)(t) >= 0.0 && LtdOf(J, pre, post, g, hrate)(t) >= 0.0
    {
      VisitUpdateKeepsRange(J, pre, post, g, hrate, t);
    }
    SigmaNonNegative(LtpOf(J, pre, post, g, hrate), 0, Visits(g) - 1);
    SigmaNonNegative(LtdOf(J, pre, post, g, hrate), 0, Visits(g) - 1);
  }

  /**
   * The state after a pointer walk has passed the positions below upto of a
   * bank that started as J0, with totals that started at ltp0 and ltd0: the
   * passed positions hold the weights W gives them, the others are untouched,
   * and the totals have grown by the amounts P and D give the passed positions.
   */
  ghost predicate Walked(J0: seq<real>, n: int, W: int -> real, P: int -> real, D: int -> real,
                         ltp0: real, ltd0: real, upto: int, J: seq<real>, ltp: real, ltd: real)
  {
    0 <= upto <= n <= |J0| && |J| == |J0|
    && (forall t :: 0 <= t < upto ==> J[t] == W(t))
    && (forall t :: upto <= t < |J| ==> J[t] == J0[t])
    && ltp == ltp0 + Sigma(P, 0, upto - 1)
    && ltd == ltd0 + Sigma(D, 0, upto - 1)
  }

  /** Walked for the updates of train_projection_cyclic on bank J0. */
  ghost predicate Progress(J0: seq<real>, pre: seq<real>, post: seq<real>, g: Geometry, hrate: real,
                           ltp0: real, ltd0: real, upto: int, J: seq<real>, ltp: real, ltd: real)
    requires TrainArgs(J0, pre, post, g)
  {
    Walked(J0, Visits(g), WeightOf(J0, pre, post, g, hrate), LtpOf(J0, pre, post, g, hrate), LtdOf(J0, pre, post, g, hrate),
           ltp0, ltd0, upto, J, ltp, ltd)
  }

  /** Before the walk passes position upto, the entry there still holds its initial weight. */
  lemma WalkedUntouched(J0: seq<real>, n: int, W: int -> real, P: int -> real, D: int -> real,
                        ltp0: real, ltd0: real, upto: int, J: seq<real>, ltp: real, ltd: real)
    requires Walked(J0, n, W, P, D, ltp0, ltd0, upto, J, ltp, ltd) && upto < n
    ensures J[upto] == J0[upto]
  {
  }

  /** One more step of the walk: applying the update of position upto extends Walked by one position. */
  lemma WalkedStep(J0: seq<real>, n: int, W: int -> real, P: int -> real, D: int -> real,
                   ltp0: real, ltd0: real, upto: int, J: seq<real>, ltp: real, ltd: real, u: Update)
    requires Walked(J0, n, W, P, D, ltp0, ltd0, upto, J, ltp, ltd) && upto < n
    requires u.w == W(upto) && u.ltp == P(upto) && u.ltd == D(upto)
    ensures Walked(J0, n, W, P, D, ltp0, ltd0, upto + 1, J[upto := u.w], ltp + u.ltp, ltd + u.ltd)
  {
  }

  /** The pointer at the start of cell ij. */
  lemma PosCellStart(g: Geometry, ij: int)
    ensures Pos(g, ij, -(g.kh / 2), -(g.kw / 2)) == ij * Span(g.kh) * Span(g.kw)
  {
  }

  /** Running off the end of kernel row k is the start of row k + 1. */
  lemma PosNextRow(g: Geometry, ij: int, k: int)
    ensures Pos(g, ij, k, g.kw / 2 + 1) == Pos(g, ij, k + 1, -(g.kw / 2))
  {
    var x := ij * Span(g.kh) + (k + g.kh / 2);
    assert (x + 1) * Span(g.kw) == x * Span(g.kw) + Span(g.kw);
  }

  /** Running off the end of cell ij's window is the start of cell ij + 1. */
  lemma PosNextCell(g: Geometry, ij: int)
    ensures Pos(g, ij, g.kh / 2 + 1, -(g.kw / 2)) == Pos(g, ij + 1, -(g.kh / 2), -(g.kw / 2))
  {
    assert (ij + 1) * Span(g.kh) == ij * Span(g.kh) + Span(g.kh);
  }

  /**
   * train_projection_cyclic: walks the cells (i, j) of the area row by row
   * and, for each, the offsets (k, l) of its window, moving the kernel
   * pointer one entry per offset; every entry it passes gets the learning
   * rule applied with the rate of presynaptic cell m and the potential of
   * cell ij. The entries beyond the walked range are untouched.
   */
  method TrainProjectionCyclic(pre: seq<real>, post: seq<real>, J: seq<real>, g: Geometry,
                               hrate: real, totLTP: real, totLTD: real)
    returns (J': seq<real>, ltp: real, ltd: real)
    requires TrainArgs(J, pre, post, g)
    ensures J' == Trained(J, pre, post, g, hrate)
    ensures ltp == totLTP + Sigma(LtpOf(J, pre, post, g, hrate), 0, Visits(g) - 1)
    ensures ltd == totLTD + Sigma(LtdOf(J, pre, post, g, hrate), 0, Visits(g) - 1)
  {
    J', ltp, ltd := J, totLTP, totLTD;
    var kern := 0;
    var i := 0;
    PosCellStart(g, 0);
    while i < g.h
      invariant 0 <= i <= g.h
      invariant kern == Pos(g, i * g.w, -(g.kh / 2), -(g.kw / 2))
      invariant Progress(J, pre, post, g, hrate, totLTP, totLTD, kern, J', ltp, ltd)
    {
      J', ltp, ltd, kern := TrainAreaRow(pre, post, J, g, hrate, totLTP, totLTD, i, i * g.w, J', ltp, ltd, kern);
      assert i * g.w + g.w == (i + 1) * g.w;
      i := i + 1;
    }
    assert i == g.h;
    assert g.h * g.w == g.w * g.h;
    PosCellStart(g, g.w * g.h);
    assert forall t :: 0 <= t < |J| ==> J'[t] == Trained(J, pre, post, g, hrate)[t];
  }

  /** The j loop of train_projection_cyclic: the cells of area row i, which start at cell first. */
  method TrainAreaRow(pre: seq<real>, post: seq<real>, J0: seq<real>, g: Geometry, hrate: real, ltp0: real, ltd0: real,
                      i: int, first: int, J: seq<real>, ltp: real, ltd: real, kern: int)
    returns (J': seq<real>, ltp': real, ltd': real, kern': int)
    requires 0 <= i < g.h && first == i * g.w
    requires kern == Pos(g, first, -(g.kh / 2), -(g.kw / 2))
    requires TrainArgs(J0, pre, post, g)
    requires Progress(J0, pre, post, g, hrate, ltp0, ltd0, kern, J, ltp, ltd)
    ensures kern' == Pos(g, first + g.w, -(g.kh / 2), -(g.kw / 2))
    ensures Progress(J0, pre, post, g, hrate, ltp0, ltd0, kern', J', ltp', ltd')
  {
    J', ltp', ltd', kern' := J, ltp, ltd, kern;
    var j := 0;
    while j < g.w
      invariant 0 <= j <= g.w
      invariant kern' == Pos(g, first + j, -(g.kh / 2), -(g.kw / 2))
      invariant Progress(J0, pre, post, g, hrate, ltp0, ltd0, kern', J', ltp', ltd')
    {
      J', ltp', ltd', kern' := TrainCell(pre, post, J0, g, hrate, ltp0, ltd0, i, j, first + j, J', ltp', ltd', kern');
      j := j + 1;
    }
  }

  /** The k and l loops of train_projection_cyclic for cell (i, j). */
  method TrainCell(pre: seq<real>, post: seq<real>, J0: seq<real>, g: Geometry, hrate: real, ltp0: real, ltd0: real,
                   i: int, j: int, ij: int, J: seq<real>, ltp: real, ltd: real, kern: int)
    returns (J': seq<real>, ltp': real, ltd': real, kern': int)
    requires 0 <= i < g.h && 0 <= j < g.w && ij == i * g.w + j
    requires kern == Pos(g, ij, -(g.kh / 2), -(g.kw / 2))
    requires TrainArgs(J0, pre, post, g)
    requires Progress(J0, pre, post, g, hrate, ltp0, ltd0, kern, J, ltp, ltd)
    ensures kern' == Pos(g, ij + 1, -(g.kh / 2), -(g.kw / 2))
    ensures Progress(J0, pre, post, g, hrate, ltp0, ltd0, kern', J', ltp', ltd')
  {
    J', ltp', ltd', kern' := J, ltp, ltd, kern;
    var k := -(g.kh / 2);
    while k <= g.kh / 2
      invariant -(g.kh / 2) <= k <= g.kh / 2 + 1
      invariant kern' == Pos(g, ij, k, -(g.kw / 2))
      invariant Progress(J0, pre, post, g, hrate, ltp0, ltd0, kern', J', ltp', ltd')
    {
      J', ltp', ltd', kern' := TrainRow(pre, post, J0, g, hrate, ltp0, ltd0, i, j, ij, k, J', ltp', ltd', kern');
      PosNextRow(g, ij, k);
      k := k + 1;
    }
    PosNextCell(g, ij);
  }

  /** The l loop of train_projection_cyclic for cell (i, j) and kernel row k. */
  method TrainRow(pre: seq<real>, post: seq<real>, J0: seq<real>, g: Geometry, hrate: real, ltp0: real, ltd0: real,
                  i: int, j: int, ij: int, k: int, J: seq<real>, ltp: real, ltd: real, kern: int)
    returns (J': seq<real>, ltp': real, ltd': real, kern': int)
    requires 0 <= i < g.h && 0 <= j < g.w && ij == i * g.w + j && -(g.kh / 2) <= k <= g.kh / 2
    requires kern == Pos(g, ij, k, -(g.kw / 2))
    requires TrainArgs(J0, pre, post, g)
    requires Progress(J0, pre, post, g, hrate, ltp0, ltd0, kern, J, ltp, ltd)
    ensures kern' == Pos(g, ij, k, g.kw / 2 + 1)
    ensures Progress(J0, pre, post, g, hrate, ltp0, ltd0, kern', J', ltp', ltd')
  {
    J', ltp', ltd', kern' := J, ltp, ltd, kern;
    var l := -(g.kw / 2);
    while l <= g.kw / 2
      invariant -(g.kw / 2) <= l <= g.kw / 2 + 1
      invariant kern' == Pos(g, ij, k, l)
      invariant Progress(J0, pre, post, g, hrate, ltp0, ltd0, kern', J', ltp', ltd')
    {
      ghost var W, P, D := WeightOf(J0, pre, post, g, hrate), LtpOf(J0, pre, post, g, hrate), LtdOf(J0, pre, post, g, hrate);
      StepValues(J0, pre, post, g, hrate, i, j, ij, k, l, kern');
      WalkedUntouched(J0, Visits(g), W, P, D, ltp0, ltd0, kern', J', ltp', ltd');
      var m := PreIndex(g, i, j, k, l);
      var u := UpdateSynapse(J'[kern'], pre[m], post[ij], hrate);
      WalkedStep(J0, Visits(g), W, P, D, ltp0, ltd0, kern', J', ltp', ltd', u);
      J' := J'[kern' := u.w];
      ltp' := ltp' + u.ltp;
      ltd' := ltd' + u.ltd;
      kern' := kern' + 1;
      l := l + 1;
    }
  }

  /** Every pointer position is the pointer value of the loop state it decodes to. */
  lemma PosDecode(g: Geometry, t: int)
    requires 0 <= t < Visits(g)
    ensures g.w > 0 && Pos(g, Decode(g, t).ij, Decode(g, t).k, Decode(g, t).l) == t
  {
    DecodeBounds(g, t);
    var sw := Span(g.kw);
    var sh := Span(g.kh);
    DivModBounds(t, sw, g.w * g.h * sh);
    DivModBounds(t / sw, sh, g.w * g.h);
  }

  /**
   * For odd kernel sizes the rolling pointer is block indexing: at cell ij
   * and offsets (k, l) it is ij*mx*my + (k+ky2)*mx + (l+kx2), the kernel
   * entry the correlation weights offset (k, l) with, inside cell ij's block
   * of mx*my entries; and the whole walk covers exactly nx*ny*mx*my entries.
   */
  lemma RollingIsBlock(g: Geometry, ij: int, k: int, l: int)
    requires g.kh % 2 == 1 && g.kw % 2 == 1
    ensures Pos(g, ij, k, l) == BlockPos(g, ij, k, l)
    ensures Visits(g) == g.w * g.h * (g.kw * g.kh)
    ensures Lo(g.kh) == -(g.kh / 2) && Hi(g.kh) == g.kh / 2 && Lo(g.kw) == -(g.kw / 2) && Hi(g.kw) == g.kw / 2
  {
    assert (g.kh - 1) / 2 == g.kh / 2 && (g.kw - 1) / 2 == g.kw / 2;
    assert (ij * g.kh + (k + g.kh / 2)) * g.kw == ij * (g.kw * g.kh) + (k + g.kh / 2) * g.kw;
  }

  // ---------------------------------------------------------------------
  // Block-indexed training: cell ij's kernel is the block of mx*my entries
  // starting at ij*mx*my, walked with the correlation's window offsets

  /** The entry of cell ij's kernel block that weights offset (k, l) in the correlation. */
  function BlockPos(g: Geometry, ij: int, k: int, l: int): int
  {
    ij * (g.kw * g.kh) + KernIndex(g, k, l)
  }

  /** The cell and the window offsets whose kernel entry is t. */
  function BlockDecode(g: Geometry, t: int): Visit
    requires g.w > 0 && g.kw > 0 && g.kh > 0
  {
    var ij := t / (g.kw * g.kh);
    var r := t % (g.kw * g.kh);
    Visit(ij, ij / g.w, ij % g.w, r / g.kw - (g.kh - 1) / 2, r % g.kw - (g.kw - 1) / 2)
  }

  /** Every entry of the kernel bank belongs to one cell and one window offset, and is that pair's entry. */
  lemma BlockDecodeBounds(g: Geometry, t: int)
    requires 0 <= t < g.w * g.h * (g.kw * g.kh)
    ensures g.w > 0 && g.h > 0 && g.kw > 0 && g.kh > 0
    ensures 0 <= BlockDecode(g, t).i < g.h && 0 <= BlockDecode(g, t).j < g.w
    ensures BlockDecode(g, t).ij == BlockDecode(g, t).i * g.w + BlockDecode(g, t).j
    ensures InRange(BlockDecode(g, t).k, g.kh) && InRange(BlockDecode(g, t).l, g.kw)
    ensures BlockPos(g, BlockDecode(g, t).ij, BlockDecode(g, t).k, BlockDecode(g, t).l) == t
  {
    var n := g.kw * g.kh;
    var q, r := t / n, t % n;
    assert n > 0 && 0 <= q < g.w * g.h && 0 <= r < n && q * n + r == t by {
      assert g.w * g.h * n == n * (g.w * g.h);
      DivModBounds(t, n, g.w * g.h);
    }
    assert 0 <= r / g.kw < g.kh && 0 <= r % g.kw < g.kw && (r / g.kw) * g.kw + r % g.kw == r by {
      DivModBounds(r, g.kw, g.kh);
    }
    assert 0 <= q / g.w < g.h && 0 <= q % g.w < g.w && (q / g.w) * g.w + q % g.w == q by {
      DivModBounds(q, g.w, g.h);
    }
    var d := BlockDecode(g, t);
    assert d == Visit(q, q / g.w, q % g.w, r / g.kw - (g.kh - 1) / 2, r % g.kw - (g.kw - 1) / 2);
    assert KernIndex(g, d.k, d.l) == (r / g.kw) * g.kw + r % g.kw == r;
    assert BlockPos(g, d.ij, d.k, d.l) == q * n + r;
  }

  /** The entry of cell (i, j) for window offset (k, l) lies in the bank and decodes back to them. */
  lemma BlockPosDecode(g: Geometry, i: int, j: int, k: int, l: int)
    requires 0 <= i < g.h && 0 <= j < g.w && InRange(k, g.kh) && InRange(l, g.kw)
    ensures g.kw > 0 && g.kh > 0
    ensures 0 <= BlockPos(g, i * g.w + j, k, l) < g.w * g.h * (g.kw * g.kh)
    ensures BlockDecode(g, BlockPos(g, i * g.w + j, k, l)) == Visit(i * g.w + j, i, j, k, l)
  {
    KernIndexBounds(g, k, l);
    RowMajorBounds(i, j, g.w, g.h);
    RowMajorBounds(i * g.w + j, KernIndex(g, k, l), g.kw * g.kh, g.w * g.h);
    assert (g.kw * g.kh) * (g.w * g.h) == g.w * g.h * (g.kw * g.kh);
    RowMajorInverse(i * g.w + j, KernIndex(g, k, l), g.kw * g.kh);
    RowMajorInverse(k + (g.kh - 1) / 2, l + (g.kw - 1) / 2, g.kw);
    RowMajorInverse(i, j, g.w);
  }

  /** The number of entries of a full bank: one kernel of kw*kh entries per cell. */
  function BankSize(g: Geometry): int
  {
    g.w * g.h * (g.kw * g.kh)
  }

  /** What block-indexed training needs: long enough rate and potential vectors and a full bank of blocks. */
  predicate BlockArgs(J: seq<real>, pre: seq<real>, post: seq<real>, g: Geometry)
  {
    |pre| >= g.w * g.h && |post| >= g.w * g.h && |J| >= g.w * g.h * (g.kw * g.kh)
  }

  /** The update of entry t of the bank: the rule with the rate the correlation weights that entry with. */
  function BlockUpdate(J: seq<real>, pre: seq<real>, post: seq<real>, g: Geometry, hrate: real, t: int): (u: Update)
    requires BlockArgs(J, pre, post, g) && 0 <= t < g.w * g.h * (g.kw * g.kh)
    ensures J[t] == NO_SYNAPSE ==> u.w == NO_SYNAPSE
  {
    BlockDecodeBounds(g, t);
    var d := BlockDecode(g, t);
    InIndexBounds(g, d.i, d.j, d.k, d.l);
    RowMajorBounds(d.i, d.j, g.w, g.h);
    UpdateSynapse(J[t], pre[InIndex(g, d.i, d.j, d.k, d.l)], post[d.ij], hrate)
  }

  /** The bank after block-indexed training: each of the nx*ny*mx*my entries updated once, the rest as before. */
  function BlockTrained(J: seq<real>, pre: seq<real>, post: seq<real>, g: Geometry, hrate: real): (r: seq<real>)
    requires BlockArgs(J, pre, post, g)
    ensures |r| == |J|
  {
    seq(|J|, t requires 0 <= t < |J| => BlockWeight(J, pre, post, g, hrate, t))
  }

  /** Block-indexed training leaves the entries past the bank alone and never creates a synapse. */
  lemma BlockTrainedKeeps(J: seq<real>, pre: seq<real>, post: seq<real>, g: Geometry, hrate: real)
    requires BlockArgs(J, pre, post, g)
    ensures forall t :: BankSize(g) <= t < |J| ==> BlockTrained(J, pre, post, g, hrate)[t] == J[t]
    ensures forall t :: 0 <= t < |J| && J[t] == NO_SYNAPSE ==> BlockTrained(J, pre, post, g, hrate)[t] == NO_SYNAPSE
  {
    var r := BlockTrained(J, pre, post, g, hrate);
    forall t | 0 <= t < |J|
      ensures r[t] == BlockWeight(J, pre, post, g, hrate, t)
    {
    }
  }

  /** Entry t of the bank after block-indexed training. */
  function BlockWeight(J: seq<real>, pre: seq<real>, post: seq<real>, g: Geometry, hrate: real, t: int): (w: real)
    requires BlockArgs(J, pre, post, g) && 0 <= t < |J|
    ensures t >= BankSize(g) ==> w == J[t]
    ensures J[t] == NO_SYNAPSE ==> w == NO_SYNAPSE
  {
    if t < g.w * g.h * (g.kw * g.kh) then BlockUpdate(J, pre, post, g, hrate, t).w else J[t]
  }

  /** The amount block-indexed training adds to the LTP total at entry t (zero outside the bank). */
  function BlockLtpOf(J: seq<real>, pre: seq<real>, post: seq<real>, g: Geometry, hrate: real): int -> real
    requires BlockArgs(J, pre, post, g)
  {
    t => if 0 <= t < g.w * g.h * (g.kw * g.kh) then BlockUpdate(J, pre, post, g, hrate, t).ltp else 0.0
  }

  /** The amount block-indexed training adds to the LTD total at entry t (zero outside the bank). */
  function BlockLtdOf(J: seq<real>, pre: seq<real>, post: seq<real>, g: Geometry, hrate: real): int -> real
    requires BlockArgs(J, pre, post, g)
  {
    t => if 0 <= t < g.w * g.h * (g.kw * g.kh) then BlockUpdate(J, pre, post, g, hrate, t).ltd else 0.0
  }

  /** With a non-negative rate, the LTP and LTD totals block-indexed training adds over the bank are non-negative. */
  lemma BlockTotalsGrow(J: seq<real>, pre: seq<real>, post: seq<real>, g: Geometry, hrate: real)
    requires BlockArgs(J, pre, post, g) && hrate >= 0.0
    ensures Sigma(BlockLtpOf(J, pre, post, g, hrate), 0, g.w * g.h * (g.kw * g.kh) - 1) >= 0.0
    ensures Sigma(BlockLtdOf(J, pre, post, g, hrate), 0, g.w * g.h * (g.kw * g.kh) - 1) >= 0.0
  {
    var n := g.w * g.h * (g.kw * g.kh) - 1;
    forall t | 0 <= t <= n
      ensures BlockLtpOf(J, pre, post, g, hrate)(t) >= 0.0 && BlockLtdOf(J, pre, post, g, hrate)(t) >= 0.0
    {
      if t < g.w * g.h * (g.kw * g.kh) {
        var d := BlockDecode(g, t);
        BlockDecodeBounds(g, t);
        InIndexBounds(g, d.i, d.j, d.k, d.l);
        RowMajorBounds(d.i, d.j, g.w, g.h);
        UpdateKeepsRange(J[t], pre[InIndex(g, d.i, d.j, d.k, d.l)], post[d.ij], hrate);
      }
    }
    SigmaNonNegative(BlockLtpOf(J, pre, post, g, hrate), 0, n);
    SigmaNonNegative(BlockLtdOf(J, pre, post, g, hrate), 0, n);
  }

  /**
   * Hebbian consistency of block-indexed training: for every cell (i, j)
   * and every offset (k, l) of the correlation's window, the kernel entry
   * that weights presynaptic cell InIndex(i, j, k, l) for cell ij is the one
   * trained with that cell's rate and cell ij's potential, and it belongs
   * to cell ij's block of the bank and to no other cell or offset.
   */
  lemma BlockTrainedEntry(J: seq<real>, pre: seq<real>, post: seq<real>, g: Geometry, hrate: real,
                          i: int, j: int, k: int, l: int)
    requires BlockArgs(J, pre, post, g)
    requires 0 <= i < g.h && 0 <= j < g.w && InRange(k, g.kh) && InRange(l, g.kw)
    ensures g.w > 0 && g.h > 0 && g.kw > 0 && g.kh > 0
    ensures 0 <= BlockPos(g, i * g.w + j, k, l) < |J| && 0 <= InIndex(g, i, j, k, l) < |pre|
    ensures 0 <= i * g.w + j < |post|
    ensures BlockDecode(g, BlockPos(g, i * g.w + j, k, l)) == Visit(i * g.w + j, i, j, k, l)
    ensures BlockTrained(J, pre, post, g, hrate)[BlockPos(g, i * g.w + j, k, l)]
         == UpdateSynapse(J[BlockPos(g, i * g.w + j, k, l)], pre[InIndex(g, i, j, k, l)], post[i * g.w + j], hrate).w
  {
    BlockPosDecode(g, i, j, k, l);
    InIndexBounds(g, i, j, k, l);
    RowMajorBounds(i, j, g.w, g.h);
  }

  /**
   * For odd kernel sizes, as in the simulator (19 by 19), the source's
   * rolling-pointer training and block-indexed training leave the same bank.
   */
  lemma BlockAgreesOnOdd(J: seq<real>, pre: seq<real>, post: seq<real>, g: Geometry, hrate: real)
    requires TrainArgs(J, pre, post, g) && g.kh % 2 == 1 && g.kw % 2 == 1
    ensures BlockArgs(J, pre, post, g)
    ensures Trained(J, pre, post, g, hrate) == BlockTrained(J, pre, post, g, hrate)
  {
    RollingIsBlock(g, 0, 0, 0);
    forall t | 0 <= t < |J|
      ensures Trained(J, pre, post, g, hrate)[t] == BlockTrained(J, pre, post, g, hrate)[t]
    {
      if t < Visits(g) {
        BlockAgreesAt(J, pre, post, g, hrate, t);
      }
    }
  }

  /** For odd kernel sizes the two trainings also add the same LTP and LTD totals. */
  lemma BlockTotalsAgreeOnOdd(J: seq<real>, pre: seq<real>, post: seq<real>, g: Geometry, hrate: real)
    requires TrainArgs(J, pre, post, g) && g.kh % 2 == 1 && g.kw % 2 == 1
    ensures BlockArgs(J, pre, post, g)
    ensures Sigma(LtpOf(J, pre, post, g, hrate), 0, Visits(g) - 1)
         == Sigma(BlockLtpOf(J, pre, post, g, hrate), 0, g.w * g.h * (g.kw * g.kh) - 1)
    ensures Sigma(LtdOf(J, pre, post, g, hrate), 0, Visits(g) - 1)
         == Sigma(BlockLtdOf(J, pre, post, g, hrate), 0, g.w * g.h * (g.kw * g.kh) - 1)
  {
    RollingIsBlock(g, 0, 0, 0);
    forall t | 0 <= t <= Visits(g) - 1
      ensures LtpOf(J, pre, post, g, hrate)(t) == BlockLtpOf(J, pre, post, g, hrate)(t)
      ensures LtdOf(J, pre, post, g, hrate)(t) == BlockLtdOf(J, pre, post, g, hrate)(t)
    {
      BlockAgreesAt(J, pre, post, g, hrate, t);
    }
    SigmaExt(LtpOf(J, pre, post, g, hrate), BlockLtpOf(J, pre, post, g, hrate), 0, Visits(g) - 1);
    SigmaExt(LtdOf(J, pre, post, g, hrate), BlockLtdOf(J, pre, post, g, hrate), 0, Visits(g) - 1);
  }

  /** The two trainings agree at one entry of the walked range (odd kernel sizes). */
  lemma BlockAgreesAt(J: seq<real>, pre: seq<real>, post: seq<real>, g: Geometry, hrate: real, t: int)
    requires TrainArgs(J, pre, post, g) && g.kh % 2 == 1 && g.kw % 2 == 1 && 0 <= t < Visits(g)
    ensures BlockArgs(J, pre, post, g) && t < g.w * g.h * (g.kw * g.kh)
    ensures VisitUpdate(J, pre, post, g, hrate, t) == BlockUpdate(J, pre, post, g, hrate, t)
  {
    DecodeBounds(g, t);
    PosDecode(g, t);
    var d := Decode(g, t);
    RollingIsBlock(g, d.ij, d.k, d.l);
    BlockPosDecode(g, d.i, d.j, d.k, d.l);
    PreIndexIsInIndex(g, d.i, d.j, d.k, d.l);
  }

  /**
   * The rolling pointer with an even kernel size (2 by 2 kernels on a 2 by 2
   * area): the loops run 3 offsets per axis, so the pointer walks 36 entries
   * of a bank that holds 16, and cell 1's first update lands on an entry of
   * cell 2's kernel block.
   */
  lemma EvenKernelOverrun(g: Geometry)
    requires g == Geometry(2, 2, 2, 2)
    ensures Visits(g) == 36 && g.w * g.h * (g.kw * g.kh) == 16
    ensures Pos(g, 1, -(g.kh / 2), -(g.kw / 2)) == 9 && BlockDecode(g, 9).ij == 2
  {
  }
}
