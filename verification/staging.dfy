/**
 * The per-step input and output stages of the simulation
 * (standardNet6Areas.c lines 1126-1244 and 1319-1346): staging the
 * sensory and motor input areas, clamping them onto the areas of the
 * chosen columns, computing the firing rates with the network's output
 * total, and updating the cells' adaptation.
 *
 * The sensory and motor inputs are NYAREAS rows of N1 binary cells; the
 * pattern matrices hold NYAREAS rows of P patterns of N1 cells each.
 * The uniform draws bool_noise uses are parameters, one per input cell.
 * The transfer function FUNC (the library's RAMP) is a parameter.
 */
module Staging {
  import opened Params
  import opened Sums
  import opened Correlation
  import opened Vectors
  import opened Kernels
  import opened Plasticity

  // ---------------------------------------------------------------------
  // Sensorimotor input staging (standardNet6Areas.c:1126-1204)

  /** Every draw lies in [0,1). */
  predicate UnitDraws(ds: seq<real>)
  {
    forall t :: 0 <= t < |ds| ==> 0.0 <= ds[t] < 1.0
  }

  /** Row j (of NYAREAS) of an input vector. */
  function InputRow(input: seq<int>, j: nat): (r: seq<int>)
    requires |input| == NYAREAS * N1 && j < NYAREAS
    ensures |r| == N1
  {
    MulMonotone(j + 1, NYAREAS, N1);
    input[N1 * j..N1 * j + N1]
  }

  /** Pattern spatno (1..P) of row j of a pattern matrix. */
  function PatternRow(patt: seq<int>, j: nat, spatno: int): (r: seq<int>)
    requires |patt| == NYAREAS * P * N1 && j < NYAREAS && 1 <= spatno <= P
    ensures |r| == N1
  {
    MulMonotone(spatno, P, N1);
    MulMonotone(j + 1, NYAREAS, P * N1);
    patt[P * N1 * j + N1 * (spatno - 1)..P * N1 * j + N1 * (spatno - 1) + N1]
  }

  /** White noise for row j: cell i fires when its draw succeeds with probability `noise`. */
  function NoiseRow(draws: seq<real>, j: nat, noise: real): (r: seq<int>)
    requires |draws| == NYAREAS * N1 && j < NYAREAS && UnitDraws(draws)
    ensures |r| == N1 && IsBinary(r)
  {
    MulMonotone(j + 1, NYAREAS, N1);
    seq(N1, i requires 0 <= i < N1 => if BoolNoise(noise, draws[N1 * j + i]) then 1 else 0)
  }

  /** The input-staging settings of one step: pattern slider, the input switch and row slider, and the noise level. */
  datatype Staging = Staging(spatno: int, present: bool, inRow: int, noisy: bool, noise: real)

  /**
   * The pattern slider is not negative. Values above P behave like P+1:
   * no pattern is copied and noise is drawn when due. A negative value
   * would index before the pattern matrix.
   */
  predicate StagingRange(s: Staging)
  {
    0 <= s.spatno
  }

  /** Row j receives the current pattern: it is switched on, a real pattern is chosen and the row is selected (or all rows are). */
  predicate ShowsPattern(s: Staging, j: nat)
  {
    s.present && 0 < s.spatno < P + 1 && (s.inRow == j + 1 || s.inRow == NYAREAS + 1)
  }

  /**
   * Row j after staging: cleared when no pattern is chosen, the pattern when
   * the row receives one, fresh noise when noise is due, unchanged otherwise.
   */
  function StagedRow(input: seq<int>, patt: seq<int>, draws: seq<real>, s: Staging, j: nat): (r: seq<int>)
    requires |input| == NYAREAS * N1 && |patt| == NYAREAS * P * N1 && |draws| == NYAREAS * N1
    requires UnitDraws(draws) && StagingRange(s) && j < NYAREAS
    ensures |r| == N1
  {
    if s.spatno == 0 then BZeros(N1)
    else if ShowsPattern(s, j) then PatternRow(patt, j, s.spatno)
    else if s.noisy then NoiseRow(draws, j, s.noise)
    else InputRow(input, j)
  }

  /** The staged rows, in row order. */
  function StagedRows(input: seq<int>, patt: seq<int>, draws: seq<real>, s: Staging): (rows: seq<seq<int>>)
    requires |input| == NYAREAS * N1 && |patt| == NYAREAS * P * N1 && |draws| == NYAREAS * N1
    requires UnitDraws(draws) && StagingRange(s)
    ensures |rows| == NYAREAS && AllLength(rows, N1)
  {
    seq(NYAREAS, j requires 0 <= j < NYAREAS => StagedRow(input, patt, draws, s, j))
  }

  /** One input vector (sensory or motor) after staging. */
  function StageInput(input: seq<int>, patt: seq<int>, draws: seq<real>, s: Staging): (r: seq<int>)
    requires |input| == NYAREAS * N1 && |patt| == NYAREAS * P * N1 && |draws| == NYAREAS * N1
    requires UnitDraws(draws) && StagingRange(s)
    ensures |r| == NYAREAS * N1
    ensures s.spatno == 0 ==> r == BZeros(NYAREAS * N1)
  {
    JoinLength(StagedRows(input, patt, draws, s), N1);
    assert s.spatno == 0 ==> Join(StagedRows(input, patt, draws, s)) == BZeros(NYAREAS * N1) by {
      if s.spatno == 0 {
        JoinOfZeros(StagedRows(input, patt, draws, s), N1);
      }
    }
    Join(StagedRows(input, patt, draws, s))
  }

  /** Rows of zeros join to a vector of zeros. */
  lemma {:induction false} JoinOfZeros(rows: seq<seq<int>>, n: nat)
    requires forall q :: 0 <= q < |rows| ==> rows[q] == BZeros(n)
    ensures Join(rows) == BZeros(n * |rows|)
  {
    if |rows| > 0 {
      JoinOfZeros(rows[..|rows| - 1], n);
      assert BZeros(n * (|rows| - 1)) + BZeros(n) == BZeros(n * |rows|);
    }
  }

  /** Row j of the staged input is the staged row. */
  lemma StagedRowAt(input: seq<int>, patt: seq<int>, draws: seq<real>, s: Staging, j: nat)
    requires |input| == NYAREAS * N1 && |patt| == NYAREAS * P * N1 && |draws| == NYAREAS * N1
    requires UnitDraws(draws) && StagingRange(s) && j < NYAREAS
    ensures InputRow(StageInput(input, patt, draws, s), j) == StagedRow(input, patt, draws, s, j)
  {
    JoinSlice(StagedRows(input, patt, draws, s), N1, j);
  }

  /**
   * Cell i of row j after staging: 0 without a pattern; the pattern's cell
   * in a row that receives the pattern; a Bernoulli(noise) cell when noise
   * is due; the old cell otherwise.
   */
  lemma StagedCell(input: seq<int>, patt: seq<int>, draws: seq<real>, s: Staging, j: nat, i: nat)
    requires |input| == NYAREAS * N1 && |patt| == NYAREAS * P * N1 && |draws| == NYAREAS * N1
    requires UnitDraws(draws) && StagingRange(s) && j < NYAREAS && i < N1
    ensures N1 * j + i < NYAREAS * N1
    ensures s.spatno == 0 ==> StageInput(input, patt, draws, s)[N1 * j + i] == 0
    ensures s.spatno != 0 && ShowsPattern(s, j) ==>
              P * N1 * j + N1 * (s.spatno - 1) + i < |patt| &&
              StageInput(input, patt, draws, s)[N1 * j + i] == patt[P * N1 * j + N1 * (s.spatno - 1) + i]
    ensures s.spatno != 0 && !ShowsPattern(s, j) && s.noisy ==>
              StageInput(input, patt, draws, s)[N1 * j + i] == (if BoolNoise(s.noise, draws[N1 * j + i]) then 1 else 0)
    ensures s.spatno != 0 && !ShowsPattern(s, j) && !s.noisy ==>
              StageInput(input, patt, draws, s)[N1 * j + i] == input[N1 * j + i]
  {
    StagedRowAt(input, patt, draws, s, j);
    RowMajorBounds(j, i, N1, NYAREAS);
    assert InputRow(StageInput(input, patt, draws, s), j)[i] == StageInput(input, patt, draws, s)[N1 * j + i];
    if s.spatno != 0 && !ShowsPattern(s, j) && s.noisy {
      assert StagedRow(input, patt, draws, s, j) == NoiseRow(draws, j, s.noise);
      assert NoiseRow(draws, j, s.noise)[i] == if BoolNoise(s.noise, draws[N1 * j + i]) then 1 else 0;
    }
  }

  /** Staging keeps the input binary when the patterns are binary. */
  lemma StageKeepsBinary(input: seq<int>, patt: seq<int>, draws: seq<real>, s: Staging)
    requires |input| == NYAREAS * N1 && |patt| == NYAREAS * P * N1 && |draws| == NYAREAS * N1
    requires UnitDraws(draws) && StagingRange(s) && IsBinary(input) && IsBinary(patt)
    ensures IsBinary(StageInput(input, patt, draws, s))
  {
    var r := StageInput(input, patt, draws, s);
    forall t | 0 <= t < |r|
      ensures r[t] == 0 || r[t] == 1
    {
      DivModBounds(t, N1, NYAREAS);
      var j, i := t / N1, t % N1;
      assert t == N1 * j + i;
      StagedCell(input, patt, draws, s, j, i);
    }
  }

  /** The sensory and motor input vectors. */
  datatype Inputs = Inputs(sens: seq<int>, motor: seq<int>)

  /**
   * The staging stage of a step: noise is due unless the network is being
   * trained and a stimulus is being presented (phase 2); the sensory and
   * motor inputs are staged with their own switch, row slider and draws.
   */
  function StageInputs(inp: Inputs, sensPatt: seq<int>, motorPatt: seq<int>, sensDraws: seq<real>, motorDraws: seq<real>,
                       spatno: int, training: bool, phase: int, sSInp: bool, sMInp: bool, sSInRow: int, sMInRow: int,
                       noise: real): (r: Inputs)
    requires |inp.sens| == NYAREAS * N1 && |inp.motor| == NYAREAS * N1
    requires |sensPatt| == NYAREAS * P * N1 && |motorPatt| == NYAREAS * P * N1
    requires |sensDraws| == NYAREAS * N1 && |motorDraws| == NYAREAS * N1 && UnitDraws(sensDraws) && UnitDraws(motorDraws)
    requires 0 <= spatno
    ensures |r.sens| == NYAREAS * N1 && |r.motor| == NYAREAS * N1
    ensures spatno == 0 ==> r.sens == BZeros(NYAREAS * N1) && r.motor == BZeros(NYAREAS * N1)
    ensures IsBinary(inp.sens) && IsBinary(sensPatt) ==> IsBinary(r.sens)
    ensures IsBinary(inp.motor) && IsBinary(motorPatt) ==> IsBinary(r.motor)
  {
    var noisy := !training || phase != 2;
    var ss := Staging(spatno, sSInp, sSInRow, noisy, noise);
    var ms := Staging(spatno, sMInp, sMInRow, noisy, noise);
    assert IsBinary(inp.sens) && IsBinary(sensPatt) ==> IsBinary(StageInput(inp.sens, sensPatt, sensDraws, ss)) by {
      if IsBinary(inp.sens) && IsBinary(sensPatt) {
        StageKeepsBinary(inp.sens, sensPatt, sensDraws, ss);
      }
    }
    assert IsBinary(inp.motor) && IsBinary(motorPatt) ==> IsBinary(StageInput(inp.motor, motorPatt, motorDraws, ms)) by {
      if IsBinary(inp.motor) && IsBinary(motorPatt) {
        StageKeepsBinary(inp.motor, motorPatt, motorDraws, ms);
      }
    }
    Inputs(StageInput(inp.sens, sensPatt, sensDraws, Staging(spatno, sSInp, sSInRow, noisy, noise)),
           StageInput(inp.motor, motorPatt, motorDraws, Staging(spatno, sMInp, sMInRow, noisy, noise)))
  }

  /**
   * While training presents a stimulus, rows that do not receive the
   * pattern keep their previous input: no noise is drawn.
   */
  lemma NoNoiseWhilePresenting(inp: Inputs, sensPatt: seq<int>, motorPatt: seq<int>, sensDraws: seq<real>,
                               motorDraws: seq<real>, spatno: int, sSInp: bool, sMInp: bool, sSInRow: int,
                               sMInRow: int, noise: real, j: nat, i: nat)
    requires |inp.sens| == NYAREAS * N1 && |inp.motor| == NYAREAS * N1
    requires |sensPatt| == NYAREAS * P * N1 && |motorPatt| == NYAREAS * P * N1
    requires |sensDraws| == NYAREAS * N1 && |motorDraws| == NYAREAS * N1 && UnitDraws(sensDraws) && UnitDraws(motorDraws)
    requires 0 < spatno && j < NYAREAS && i < N1
    requires !ShowsPattern(Staging(spatno, sSInp, sSInRow, false, noise), j)
    ensures N1 * j + i < NYAREAS * N1
    ensures StageInputs(inp, sensPatt, motorPatt, sensDraws, motorDraws, spatno, true, 2, sSInp, sMInp, sSInRow,
                        sMInRow, noise).sens[N1 * j + i] == inp.sens[N1 * j + i]
  {
    StagedCell(inp.sens, sensPatt, sensDraws, Staging(spatno, sSInp, sSInRow, false, noise), j, i);
  }

  // ---------------------------------------------------------------------
  // Clamping the input onto the areas (standardNet6Areas.c:1228-1244)

  /**
   * clampSMIn for `area`: the sensory input of the area's row scaled by the
   * sensory amplitude when the area is in the sensory column, otherwise the
   * motor input scaled by the motor amplitude when it is in the motor
   * column, otherwise zero.
   */
  function Clamp(area: nat, inp: Inputs, sSI0: int, sMI0: int, sSInCol: int, sMInCol: int): (r: seq<real>)
    requires area < NAREAS && |inp.sens| == NYAREAS * N1 && |inp.motor| == NYAREAS * N1
    ensures |r| == N1
  {
    DivModBounds(area, NXAREAS, NYAREAS);
    var row := area / NXAREAS;
    if area % NXAREAS == sSInCol - 1 then
      seq(N1, i requires 0 <= i < N1 => sSI0 as real * InputRow(inp.sens, row)[i] as real)
    else if area % NXAREAS == sMInCol - 1 then
      seq(N1, i requires 0 <= i < N1 => sMI0 as real * InputRow(inp.motor, row)[i] as real)
    else Zeros(N1)
  }

  /**
   * With binary inputs every clamped value is 0 or the amplitude of the
   * input the area's column receives; an area in neither input column gets
   * no clamped input, and the sensory input wins when both columns coincide.
   */
  lemma ClampValues(area: nat, inp: Inputs, sSI0: int, sMI0: int, sSInCol: int, sMInCol: int, i: nat)
    requires area < NAREAS && |inp.sens| == NYAREAS * N1 && |inp.motor| == NYAREAS * N1 && i < N1
    requires IsBinary(inp.sens) && IsBinary(inp.motor)
    ensures var c := Clamp(area, inp, sSI0, sMI0, sSInCol, sMInCol)[i];
            if area % NXAREAS == sSInCol - 1 then c == 0.0 || c == sSI0 as real
            else if area % NXAREAS == sMInCol - 1 then c == 0.0 || c == sMI0 as real
            else c == 0.0
  {
    DivModBounds(area, NXAREAS, NYAREAS);
    var row := area / NXAREAS;
    assert InputRow(inp.sens, row)[i] == inp.sens[N1 * row + i];
    assert InputRow(inp.motor, row)[i] == inp.motor[N1 * row + i];
  }

  // ---------------------------------------------------------------------
  // Firing rates and the network's output (standardNet6Areas.c:1319-1333)

  /** The firing rate of every cell: the transfer function of the gain-scaled potential above threshold and adaptation. */
  function Rates(pot: seq<real>, adapt: seq<real>, gain: real, theta: real, f: real -> real): (rates: seq<real>)
    requires |pot| == |adapt|
    ensures |rates| == |pot|
  {
    seq(|pot|, t requires 0 <= t < |pot| => f(gain * (pot[t] - theta - adapt[t])))
  }

  /** A transfer function with values in [lo, hi] gives rates in [lo, hi] (RAMP gives [0,1]). */
  lemma RatesWithin(pot: seq<real>, adapt: seq<real>, gain: real, theta: real, f: real -> real, lo: real, hi: real)
    requires |pot| == |adapt|
    requires forall x :: lo <= f(x) <= hi
    ensures forall t :: 0 <= t < |pot| ==> lo <= Rates(pot, adapt, gain, theta, f)[t] <= hi
  {
  }

  /** With a non-decreasing transfer function, more potential (or less adaptation) never lowers a rate. */
  lemma RatesMonotone(pot: seq<real>, adapt: seq<real>, pot': seq<real>, adapt': seq<real>, gain: real, theta: real,
                      f: real -> real, t: nat)
    requires |pot| == |adapt| == |pot'| == |adapt'| && t < |pot| && gain >= 0.0
    requires forall x, y :: x <= y ==> f(x) <= f(y)
    requires pot[t] - adapt[t] <= pot'[t] - adapt'[t]
    ensures Rates(pot, adapt, gain, theta, f)[t] <= Rates(pot', adapt', gain, theta, f)[t]
  {
    var x, y := pot[t] - theta - adapt[t], pot'[t] - theta - adapt'[t];
    assert x <= y;
    assert gain * x <= gain * y by {
      assert gain * y - gain * x == gain * (y - x);
    }
  }

  /** The summed output of one area. */
  method AreaOutput(rates: seq<real>, area: nat) returns (total: real)
    requires |rates| == NAREAS * N1 && area < NAREAS
    ensures total == Sum(AreaOf(rates, area))
  {
    var v := AreaOf(rates, area);
    total := 0.0;
    var i := 0;
    while i < N1
      invariant 0 <= i <= N1
      invariant total == Sum(v[..i])
    {
      assert v[..i + 1][..i] == v[..i];
      total := total + rates[N1 * area + i];
      i := i + 1;
    }
    assert v[..N1] == v;
  }

  /**
   * total_output as the source computes it: the accumulator is cleared at
   * the start of every area, so after the pass it holds the output of the
   * last area only.
   */
  method TotalOutputAsWritten(rates: seq<real>) returns (totalOutput: real)
    requires |rates| == NAREAS * N1
    ensures totalOutput == Sum(AreaOf(rates, NAREAS - 1))
  {
    totalOutput := 0.0;
    var area := 0;
    while area < NAREAS
      invariant 0 <= area <= NAREAS
      invariant area > 0 ==> totalOutput == Sum(AreaOf(rates, area - 1))
    {
      totalOutput := AreaOutput(rates, area);
      area := area + 1;
    }
  }

  /** The network's output as its declaration describes it: the sum of the rates of all cells. */
  method TotalOutput(rates: seq<real>) returns (totalOutput: real)
    requires |rates| == NAREAS * N1
    ensures totalOutput == Sum(rates)
  {
    totalOutput := 0.0;
    var area := 0;
    while area < NAREAS
      invariant 0 <= area <= NAREAS
      invariant totalOutput == Sum(rates[..N1 * area])
    {
      var out := AreaOutput(rates, area);
      MulMonotone(area + 1, NAREAS, N1);
      assert rates[..N1 * (area + 1)] == rates[..N1 * area] + AreaOf(rates, area);
      SumConcat(rates[..N1 * area], AreaOf(rates, area));
      totalOutput := totalOutput + out;
      area := area + 1;
    }
    assert rates[..N1 * NAREAS] == rates;
  }

  /**
   * The two differ: with one firing cell in the first area and silence
   * elsewhere, the source's total_output is 0 while the network's output
   * is 1.
   */
  lemma TotalOutputLastAreaOnly()
    ensures var rates := [1.0] + Zeros(NAREAS * N1 - 1);
            |rates| == NAREAS * N1 && Sum(AreaOf(rates, NAREAS - 1)) == 0.0 && Sum(rates) == 1.0
  {
    var rates := [1.0] + Zeros(NAREAS * N1 - 1);
    SumZeros(NAREAS * N1 - 1);
    SumConcat([1.0], Zeros(NAREAS * N1 - 1));
    assert Sum([1.0]) == Sum([]) + 1.0;
    assert AreaOf(rates, NAREAS - 1) == Zeros(N1);
    SumZeros(N1);
  }

  /** A vector of zeros sums to zero. */
  lemma {:induction false} SumZeros(n: nat)
    ensures Sum(Zeros(n)) == 0.0
  {
    if n > 0 {
      assert Zeros(n)[..n - 1] == Zeros(n - 1);
      SumZeros(n - 1);
    }
  }

  // ---------------------------------------------------------------------
  // Adaptation (standardNet6Areas.c:1338-1346)

  /** Every cell's adaptation takes one leaky step toward ADAPTSTRENGTH times its rate. */
  function Adapt(adapt: seq<real>, rates: seq<real>, stepSize: real): (r: seq<real>)
    requires |adapt| == |rates|
    ensures |r| == |adapt|
  {
    seq(|adapt|, t requires 0 <= t < |adapt| => LeakyIntegrate(TAUADAPT, adapt[t], ADAPTSTRENGTH * rates[t], stepSize))
  }

  /**
   * With rates in [0,1] and an integration step no longer than TAUADAPT,
   * adaptation that starts in [0, ADAPTSTRENGTH] stays there.
   */
  lemma AdaptWithin(adapt: seq<real>, rates: seq<real>, stepSize: real)
    requires |adapt| == |rates| && 0.0 <= stepSize <= TAUADAPT
    requires forall t :: 0 <= t < |rates| ==> 0.0 <= rates[t] <= 1.0
    requires forall t :: 0 <= t < |adapt| ==> 0.0 <= adapt[t] <= ADAPTSTRENGTH
    ensures forall t :: 0 <= t < |adapt| ==> 0.0 <= Adapt(adapt, rates, stepSize)[t] <= ADAPTSTRENGTH
  {
    forall t | 0 <= t < |adapt|
      ensures 0.0 <= Adapt(adapt, rates, stepSize)[t] <= ADAPTSTRENGTH
    {
      var target := ADAPTSTRENGTH * rates[t];
      assert 0.0 <= target <= ADAPTSTRENGTH;
      var r := LeakyIntegrate(TAUADAPT, adapt[t], target, stepSize);
      assert adapt[t] <= target ==> adapt[t] <= r <= target;
      assert target <= adapt[t] ==> target <= r <= adapt[t];
    }
  }

  /** A cell whose adaptation already equals ADAPTSTRENGTH times its rate keeps it. */
  lemma AdaptFixpoint(adapt: seq<real>, rates: seq<real>, stepSize: real, t: nat)
    requires |adapt| == |rates| && t < |adapt| && adapt[t] == ADAPTSTRENGTH * rates[t]
    ensures Adapt(adapt, rates, stepSize)[t] == adapt[t]
  {
  }
}
