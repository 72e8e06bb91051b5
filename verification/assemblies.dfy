/**
 * Cell assemblies (CAs) and their overlaps (standardNet6Areas.c lines
 * 697-760 and 1378-1416).
 *
 * avg_patts holds, for every training pattern i and area, the running
 * average of the area's firing rates while pattern i was shown; ca_patts
 * holds the binary CA of the same (pattern, area) pair. Both are cut into
 * NAREAS*P segments of N1 cells, segment NAREAS*i + area belonging to
 * pattern i in that area. A CA is the set of cells whose average rate
 * exceeds a fraction of the area's peak average rate for that pattern.
 */
module Assemblies {
  import opened Params
  import opened Sums
  import opened Results
  import opened Correlation
  import opened Vectors
  import opened Kernels
  import opened Plasticity

  /** The number of (pattern, area) segments of avg_patts and ca_patts. */
  const SEGMENTS: nat := NAREAS * P

  /** The segment of pattern i in area `area`. */
  function SegmentIndex(area: nat, i: nat): (s: nat)
    requires area < NAREAS && i < P
    ensures s < SEGMENTS && s / NAREAS == i && s % NAREAS == area
  {
    RowMajorInverse(i, area, NAREAS);
    RowMajorBounds(i, area, NAREAS, P);
    i * NAREAS + area
  }

  /** The N1 cells of segment s. */
  function Segment<T>(v: seq<T>, s: nat): (r: seq<T>)
    requires |v| == SEGMENTS * N1 && s < SEGMENTS
    ensures |r| == N1
  {
    MulMonotone(s + 1, SEGMENTS, N1);
    v[N1 * s..N1 * s + N1]
  }

  /** Cell u of segment s is entry N1*s + u of the whole vector. */
  lemma SegmentAt<T>(v: seq<T>, s: nat, u: nat, t: nat)
    requires |v| == SEGMENTS * N1 && s < SEGMENTS && u < N1 && t == N1 * s + u
    ensures t < |v| && Segment(v, s)[u] == v[t]
  {
  }

  /** Segments of a binary vector are binary. */
  lemma SegmentBinary(v: seq<int>, s: nat)
    requires |v| == SEGMENTS * N1 && s < SEGMENTS && IsBinary(v)
    ensures IsBinary(Segment(v, s))
  {
  }

  // ---------------------------------------------------------------------
  // compute_CApatts (standardNet6Areas.c:697-717)

  /** Max_Elem of segment s of avg_patts: the peak average rate of the segment. */
  function Peak(avg: seq<real>, s: nat): (m: real)
    requires |avg| == SEGMENTS * N1 && s < SEGMENTS
    ensures forall u :: 0 <= u < N1 ==> Segment(avg, s)[u] <= m
    ensures exists u :: 0 <= u < N1 && Segment(avg, s)[u] == m
  {
    MaxElem(Segment(avg, s)).value
  }

  /** The firing threshold of segment s: the given fraction of its peak. */
  function Cutoff(avg: seq<real>, threshold: real, s: nat): real
    requires |avg| == SEGMENTS * N1 && s < SEGMENTS
  {
    threshold * Peak(avg, s)
  }

  /**
   * Segment s after compute_CApatts: when at least one cell reaches
   * MIN_CELLRATE, Fire overwrites it with the cells above threshold*peak;
   * otherwise the old CA stays as it was.
   */
  function CASegment(avg: seq<real>, ca: seq<int>, threshold: real, s: nat): (r: seq<int>)
    requires |avg| == SEGMENTS * N1 && |ca| == SEGMENTS * N1 && s < SEGMENTS
    ensures |r| == N1
    ensures Peak(avg, s) >= MIN_CELLRATE ==> IsBinary(r)
    ensures Peak(avg, s) >= MIN_CELLRATE ==>
              forall u :: 0 <= u < N1 ==> (r[u] == 1 <==> Segment(avg, s)[u] > Cutoff(avg, threshold, s))
  {
    if Peak(avg, s) >= MIN_CELLRATE then
      FiredBinary(N1, Segment(avg, s), Cutoff(avg, threshold, s), Segment(ca, s));
      Fire(N1, Segment(avg, s), Cutoff(avg, threshold, s), Some(Segment(ca, s)))
    else Segment(ca, s)
  }

  /** The CA segments of all patterns and areas, in segment order. */
  function CASegments(avg: seq<real>, ca: seq<int>, threshold: real): (segs: seq<seq<int>>)
    requires |avg| == SEGMENTS * N1 && |ca| == SEGMENTS * N1
    ensures |segs| == SEGMENTS && AllLength(segs, N1)
  {
    seq(SEGMENTS, s requires 0 <= s < SEGMENTS => CASegment(avg, ca, threshold, s))
  }

  /**
   * compute_CApatts(threshold): ca_patts after the call. avg_patts is only
   * read, so it is not part of the result.
   */
  function ComputeCAPatts(avg: seq<real>, ca: seq<int>, threshold: real): (r: seq<int>)
    requires |avg| == SEGMENTS * N1 && |ca| == SEGMENTS * N1
    ensures |r| == |ca|
  {
    JoinLength(CASegments(avg, ca, threshold), N1);
    Join(CASegments(avg, ca, threshold))
  }

  /**
   * The reference definition of one cell of compute_CApatts: in a segment
   * whose peak reaches MIN_CELLRATE a cell belongs to the CA exactly when
   * its average rate is above threshold*peak; in any other segment the cell
   * keeps its old value.
   */
  function CACell(avg: seq<real>, ca: seq<int>, threshold: real, t: nat): int
    requires |avg| == SEGMENTS * N1 && |ca| == SEGMENTS * N1 && t < |ca|
  {
    DivModBounds(t, N1, SEGMENTS);
    if Peak(avg, t / N1) >= MIN_CELLRATE then (if avg[t] > Cutoff(avg, threshold, t / N1) then 1 else 0) else ca[t]
  }

  /** Segment s of the result is what compute_CApatts writes to that segment. */
  lemma CAPattsSegment(avg: seq<real>, ca: seq<int>, threshold: real, s: nat)
    requires |avg| == SEGMENTS * N1 && |ca| == SEGMENTS * N1 && s < SEGMENTS
    ensures Segment(ComputeCAPatts(avg, ca, threshold), s) == CASegment(avg, ca, threshold, s)
  {
    JoinSlice(CASegments(avg, ca, threshold), N1, s);
  }

  /** One cell of the result agrees with the reference definition. */
  lemma CAPattsCell(avg: seq<real>, ca: seq<int>, threshold: real, t: nat)
    requires |avg| == SEGMENTS * N1 && |ca| == SEGMENTS * N1 && t < |ca|
    ensures ComputeCAPatts(avg, ca, threshold)[t] == CACell(avg, ca, threshold, t)
  {
    DivModBounds(t, N1, SEGMENTS);
    var s, u := t / N1, t % N1;
    assert t == N1 * s + u;
    CAPattsSegment(avg, ca, threshold, s);
    SegmentAt(ComputeCAPatts(avg, ca, threshold), s, u, t);
    SegmentAt(avg, s, u, t);
    SegmentAt(ca, s, u, t);
  }

  /** compute_CApatts, cell by cell, is the reference definition. */
  lemma CAPattsCells(avg: seq<real>, ca: seq<int>, threshold: real)
    requires |avg| == SEGMENTS * N1 && |ca| == SEGMENTS * N1
    ensures forall t :: 0 <= t < |ca| ==> ComputeCAPatts(avg, ca, threshold)[t] == CACell(avg, ca, threshold, t)
  {
    forall t | 0 <= t < |ca|
      ensures ComputeCAPatts(avg, ca, threshold)[t] == CACell(avg, ca, threshold, t)
    {
      CAPattsCell(avg, ca, threshold, t);
    }
  }

  /** A segment whose peak stays below MIN_CELLRATE keeps its old CA. */
  lemma CAPattsWeakUnchanged(avg: seq<real>, ca: seq<int>, threshold: real, area: nat, i: nat)
    requires |avg| == SEGMENTS * N1 && |ca| == SEGMENTS * N1 && area < NAREAS && i < P
    requires Peak(avg, SegmentIndex(area, i)) < MIN_CELLRATE
    ensures Segment(ComputeCAPatts(avg, ca, threshold), SegmentIndex(area, i)) == Segment(ca, SegmentIndex(area, i))
  {
    CAPattsSegment(avg, ca, threshold, SegmentIndex(area, i));
  }

  /**
   * In a segment whose peak reaches MIN_CELLRATE the new CA is binary and
   * holds exactly the cells whose average exceeds threshold*peak.
   */
  lemma CAPattsStrong(avg: seq<real>, ca: seq<int>, threshold: real, area: nat, i: nat)
    requires |avg| == SEGMENTS * N1 && |ca| == SEGMENTS * N1 && area < NAREAS && i < P
    requires Peak(avg, SegmentIndex(area, i)) >= MIN_CELLRATE
    ensures IsBinary(Segment(ComputeCAPatts(avg, ca, threshold), SegmentIndex(area, i)))
    ensures forall u :: 0 <= u < N1 ==>
              (Segment(ComputeCAPatts(avg, ca, threshold), SegmentIndex(area, i))[u] == 1 <==>
               Segment(avg, SegmentIndex(area, i))[u] > Cutoff(avg, threshold, SegmentIndex(area, i)))
  {
    CAPattsSegment(avg, ca, threshold, SegmentIndex(area, i));
  }

  /** Firing over the whole of a destination leaves it binary, whatever it held. */
  lemma FiredBinary(n: nat, v: seq<real>, teta: real, d: seq<int>)
    requires n == |d| && n <= |v|
    ensures IsBinary(Fire(n, v, teta, Some(d)))
  {
  }

  /** compute_CApatts keeps ca_patts binary. */
  lemma CAPattsBinary(avg: seq<real>, ca: seq<int>, threshold: real)
    requires |avg| == SEGMENTS * N1 && |ca| == SEGMENTS * N1 && IsBinary(ca)
    ensures IsBinary(ComputeCAPatts(avg, ca, threshold))
  {
    CAPattsCells(avg, ca, threshold);
  }

  /** Recomputing the CAs from the same averages changes nothing more. */
  lemma CAPattsIdempotent(avg: seq<real>, ca: seq<int>, threshold: real)
    requires |avg| == SEGMENTS * N1 && |ca| == SEGMENTS * N1
    ensures ComputeCAPatts(avg, ComputeCAPatts(avg, ca, threshold), threshold) == ComputeCAPatts(avg, ca, threshold)
  {
    var once := ComputeCAPatts(avg, ca, threshold);
    CAPattsCells(avg, ca, threshold);
    CAPattsCells(avg, once, threshold);
    forall t | 0 <= t < |ca|
      ensures CACell(avg, once, threshold, t) == CACell(avg, ca, threshold, t)
    {
    }
  }

  // ---------------------------------------------------------------------
  // compute_CAoverlaps (standardNet6Areas.c:749-760)

  /** The overlap of the CAs of patterns i and j in `area`: shared cells per NONES. */
  function Overlap(ca: seq<int>, area: nat, i: nat, j: nat): real
    requires |ca| == SEGMENTS * N1 && area < NAREAS && i < P && j < P
  {
    BBSkalar(Segment(ca, SegmentIndex(area, i)), Segment(ca, SegmentIndex(area, j))) as real / NONES as real
  }

  /** Row b = P*area + i of ca_ovlps: the overlaps of pattern i with every pattern in `area`. */
  function OverlapRow(ca: seq<int>, b: nat): (row: seq<real>)
    requires |ca| == SEGMENTS * N1 && b < SEGMENTS
    ensures |row| == P
  {
    DivModBounds(b, P, NAREAS);
    seq(P, j requires 0 <= j < P => Overlap(ca, b / P, b % P, j))
  }

  /** The rows of ca_overlaps, area by area. */
  function OverlapRows(ca: seq<int>): (rows: seq<seq<real>>)
    requires |ca| == SEGMENTS * N1
    ensures |rows| == SEGMENTS && AllLength(rows, P)
  {
    seq(SEGMENTS, b requires 0 <= b < SEGMENTS => OverlapRow(ca, b))
  }

  /** compute_CAoverlaps: ca_ovlps after the call, NAREAS*P*P entries. */
  function ComputeCAOverlaps(ca: seq<int>): (r: seq<real>)
    requires |ca| == SEGMENTS * N1
    ensures |r| == NAREAS * P * P
  {
    JoinLength(OverlapRows(ca), P);
    Join(OverlapRows(ca))
  }

  /** Entry P*(P*area + i) + j of ca_ovlps is the overlap of patterns i and j in `area`. */
  lemma CAOverlapAt(ca: seq<int>, area: nat, i: nat, j: nat)
    requires |ca| == SEGMENTS * N1 && area < NAREAS && i < P && j < P
    ensures P * (P * area + i) + j < NAREAS * P * P
    ensures ComputeCAOverlaps(ca)[P * (P * area + i) + j] == Overlap(ca, area, i, j)
  {
    var b := area * P + i;
    RowMajorInverse(area, i, P);
    RowMajorBounds(area, i, P, NAREAS);
    assert P * area + i == b;
    JoinSlice(OverlapRows(ca), P, b);
    assert OverlapRows(ca)[b][j] == ComputeCAOverlaps(ca)[P * b + j];
  }

  /** The overlap table of every area is symmetric. */
  lemma CAOverlapsSymmetric(ca: seq<int>, area: nat, i: nat, j: nat)
    requires |ca| == SEGMENTS * N1 && area < NAREAS && i < P && j < P
    ensures P * (P * area + i) + j < NAREAS * P * P && P * (P * area + j) + i < NAREAS * P * P
    ensures ComputeCAOverlaps(ca)[P * (P * area + i) + j] == ComputeCAOverlaps(ca)[P * (P * area + j) + i]
  {
    CAOverlapAt(ca, area, i, j);
    CAOverlapAt(ca, area, j, i);
    BBSkalarSymmetric(Segment(ca, SegmentIndex(area, i)), Segment(ca, SegmentIndex(area, j)));
  }

  /**
   * With binary CAs an overlap is at least 0 and at most the size of either
   * CA (per NONES); a CA's overlap with itself is its size per NONES.
   */
  lemma CAOverlapsBounded(ca: seq<int>, area: nat, i: nat, j: nat)
    requires |ca| == SEGMENTS * N1 && area < NAREAS && i < P && j < P && IsBinary(ca)
    ensures P * (P * area + i) + j < NAREAS * P * P
    ensures 0.0 <= ComputeCAOverlaps(ca)[P * (P * area + i) + j]
    ensures ComputeCAOverlaps(ca)[P * (P * area + i) + j] <= BSum(Segment(ca, SegmentIndex(area, i))) as real / NONES as real
    ensures ComputeCAOverlaps(ca)[P * (P * area + i) + j] <= BSum(Segment(ca, SegmentIndex(area, j))) as real / NONES as real
    ensures i == j ==> ComputeCAOverlaps(ca)[P * (P * area + i) + j] == BSum(Segment(ca, SegmentIndex(area, i))) as real / NONES as real
  {
    CAOverlapAt(ca, area, i, j);
    var si, sj := Segment(ca, SegmentIndex(area, i)), Segment(ca, SegmentIndex(area, j));
    SegmentBinary(ca, SegmentIndex(area, i));
    SegmentBinary(ca, SegmentIndex(area, j));
    BBSkalarBounded(si, sj);
    if i == j {
      BBSkalarSelf(si);
    }
  }

  /** Without any CA cells every overlap is zero. */
  lemma NoCellsNoOverlap(area: nat, i: nat, j: nat)
    requires area < NAREAS && i < P && j < P
    ensures Overlap(BZeros(SEGMENTS * N1), area, i, j) == 0.0
  {
    var none := BZeros(SEGMENTS * N1);
    assert Segment(none, SegmentIndex(area, i)) == BZeros(N1);
    assert Segment(none, SegmentIndex(area, j)) == BZeros(N1);
    BSumZeros(N1);
    BBSkalarBounded(BZeros(N1), BZeros(N1));
  }

  /**
   * The cleared CA buffer the simulation starts with has the cleared overlap
   * table: the two buffers start out consistent.
   */
  lemma NoCAsNoOverlaps()
    ensures ComputeCAOverlaps(BZeros(SEGMENTS * N1)) == Zeros(NAREAS * P * P)
  {
    var none := BZeros(SEGMENTS * N1);
    var r := ComputeCAOverlaps(none);
    forall t | 0 <= t < NAREAS * P * P
      ensures r[t] == 0.0
    {
      DivModBounds(t, P, SEGMENTS);
      var b, j := t / P, t % P;
      JoinSlice(OverlapRows(none), P, b);
      assert t == P * b + j;
      assert r[t] == OverlapRows(none)[b][j];
      DivModBounds(b, P, NAREAS);
      NoCellsNoOverlap(b / P, b % P, j);
    }
  }

  // ---------------------------------------------------------------------
  // Overlap between the CAs and the current activity (standardNet6Areas.c:1413-1416)

  /** The overlaps of the current rates of `area` with the CA of every pattern. */
  function ActivityRow(rates: seq<real>, ca: seq<int>, area: nat): (row: seq<real>)
    requires |rates| == NAREAS * N1 && |ca| == SEGMENTS * N1 && area < NAREAS
    ensures |row| == P
  {
    seq(P, i requires 0 <= i < P => BSkalar(AreaOf(rates, area), Segment(ca, SegmentIndex(area, i))))
  }

  /** The rows of ovlps, one per area. */
  function ActivityRows(rates: seq<real>, ca: seq<int>): (rows: seq<seq<real>>)
    requires |rates| == NAREAS * N1 && |ca| == SEGMENTS * N1
    ensures |rows| == NAREAS && AllLength(rows, P)
  {
    seq(NAREAS, area requires 0 <= area < NAREAS => ActivityRow(rates, ca, area))
  }

  /** ovlps: the overlap of every area's current rates with every pattern's CA there. */
  function ActivityOverlaps(rates: seq<real>, ca: seq<int>): (r: seq<real>)
    requires |rates| == NAREAS * N1 && |ca| == SEGMENTS * N1
    ensures |r| == NAREAS * P
  {
    JoinLength(ActivityRows(rates, ca), P);
    Join(ActivityRows(rates, ca))
  }

  /**
   * Entry area*P + i of ovlps adds up the current rates of the cells of
   * pattern i's CA in `area`; with rates in [0,1] it lies between 0 and the
   * CA's size.
   */
  lemma ActivityOverlapAt(rates: seq<real>, ca: seq<int>, area: nat, i: nat)
    requires |rates| == NAREAS * N1 && |ca| == SEGMENTS * N1 && area < NAREAS && i < P && IsBinary(ca)
    ensures area * P + i < NAREAS * P
    ensures ActivityOverlaps(rates, ca)[area * P + i] == MaskedSum(AreaOf(rates, area), Segment(ca, SegmentIndex(area, i)))
    ensures (forall t :: 0 <= t < |rates| ==> 0.0 <= rates[t] <= 1.0) ==>
              0.0 <= ActivityOverlaps(rates, ca)[area * P + i] <= BSum(Segment(ca, SegmentIndex(area, i))) as real
  {
    RowMajorBounds(area, i, P, NAREAS);
    JoinSlice(ActivityRows(rates, ca), P, area);
    assert P * area + i == area * P + i;
    assert ActivityRows(rates, ca)[area][i] == ActivityOverlaps(rates, ca)[area * P + i];
    var v, m := AreaOf(rates, area), Segment(ca, SegmentIndex(area, i));
    SegmentBinary(ca, SegmentIndex(area, i));
    BSkalarIsMaskedSum(v, m);
    if forall t :: 0 <= t < |rates| ==> 0.0 <= rates[t] <= 1.0 {
      assert forall u :: 0 <= u < N1 ==> v[u] == rates[N1 * area + u];
      BSkalarBounded(v, m);
    }
  }

  // ---------------------------------------------------------------------
  // Recording the average responses (standardNet6Areas.c:1381-1397)

  /** One leaky-integration step of every cell of a segment toward the current rates. */
  function IntegrateSegment(avg: seq<real>, rates: seq<real>, stepSize: real): (r: seq<real>)
    requires |avg| == |rates|
    ensures |r| == |avg|
  {
    seq(|avg|, u requires 0 <= u < |avg| => LeakyIntegrate(TAU_AVG_RATES, avg[u], rates[u], stepSize))
  }

  /** Averaging is under way: steps are left and a training pattern (1..P) is shown. */
  predicate Averaging(stepsLeft: int, spatno: int)
  {
    stepsLeft > 0 && 0 < spatno < P + 1
  }

  /** Segment s after one averaging step: pattern spatno's segments move toward the rates of their area. */
  function AveragedSegment(avg: seq<real>, rates: seq<real>, spatno: int, stepSize: real, s: nat): (r: seq<real>)
    requires |avg| == SEGMENTS * N1 && |rates| == NAREAS * N1 && s < SEGMENTS
    ensures |r| == N1
  {
    DivModBounds(s, NAREAS, P);
    if s / NAREAS == spatno - 1 then IntegrateSegment(Segment(avg, s), AreaOf(rates, s % NAREAS), stepSize)
    else Segment(avg, s)
  }

  /** All segments after one averaging step. */
  function AveragedSegments(avg: seq<real>, rates: seq<real>, spatno: int, stepSize: real): (segs: seq<seq<real>>)
    requires |avg| == SEGMENTS * N1 && |rates| == NAREAS * N1
    ensures |segs| == SEGMENTS && AllLength(segs, N1)
  {
    seq(SEGMENTS, s requires 0 <= s < SEGMENTS => AveragedSegment(avg, rates, spatno, stepSize, s))
  }

  /** avg_patts and stps_2b_avgd after the averaging stage of a step. */
  datatype Averages = Averages(avgPatts: seq<real>, stepsLeft: int)

  /**
   * The averaging stage: while steps are left and a training pattern is
   * shown, that pattern's averages of every area move toward the area's
   * current rates and one step is used up; otherwise nothing changes.
   */
  function RecordAverages(avg: seq<real>, stepsLeft: int, spatno: int, rates: seq<real>, stepSize: real): (r: Averages)
    requires |avg| == SEGMENTS * N1 && |rates| == NAREAS * N1
    ensures |r.avgPatts| == |avg|
    ensures Averaging(stepsLeft, spatno) ==> r.stepsLeft == stepsLeft - 1 && r.stepsLeft >= 0
    ensures !Averaging(stepsLeft, spatno) ==> r == Averages(avg, stepsLeft)
  {
    if Averaging(stepsLeft, spatno) then
      JoinLength(AveragedSegments(avg, rates, spatno, stepSize), N1);
      Averages(Join(AveragedSegments(avg, rates, spatno, stepSize)), stepsLeft - 1)
    else Averages(avg, stepsLeft)
  }

  /** Segment s of the averages after the stage. */
  lemma AveragesSegment(avg: seq<real>, stepsLeft: int, spatno: int, rates: seq<real>, stepSize: real, s: nat)
    requires |avg| == SEGMENTS * N1 && |rates| == NAREAS * N1 && s < SEGMENTS
    ensures Segment(RecordAverages(avg, stepsLeft, spatno, rates, stepSize).avgPatts, s) ==
            if Averaging(stepsLeft, spatno) then AveragedSegment(avg, rates, spatno, stepSize, s) else Segment(avg, s)
  {
    if Averaging(stepsLeft, spatno) {
      JoinSlice(AveragedSegments(avg, rates, spatno, stepSize), N1, s);
    }
  }

  /** The averages of every pattern other than the one shown are left alone. */
  lemma AveragesOtherPatternsUntouched(avg: seq<real>, stepsLeft: int, spatno: int, rates: seq<real>, stepSize: real,
                                       area: nat, i: nat)
    requires |avg| == SEGMENTS * N1 && |rates| == NAREAS * N1 && area < NAREAS && i < P && i != spatno - 1
    ensures Segment(RecordAverages(avg, stepsLeft, spatno, rates, stepSize).avgPatts, SegmentIndex(area, i)) ==
            Segment(avg, SegmentIndex(area, i))
  {
    AveragesSegment(avg, stepsLeft, spatno, rates, stepSize, SegmentIndex(area, i));
  }

  /** While averaging, cell u of the shown pattern's segment in `area` takes one leaky step toward the cell's rate. */
  lemma AveragesShownPattern(avg: seq<real>, stepsLeft: int, spatno: int, rates: seq<real>, stepSize: real,
                             area: nat, u: nat)
    requires |avg| == SEGMENTS * N1 && |rates| == NAREAS * N1 && area < NAREAS && u < N1
    requires Averaging(stepsLeft, spatno)
    ensures Segment(RecordAverages(avg, stepsLeft, spatno, rates, stepSize).avgPatts, SegmentIndex(area, spatno - 1))[u] ==
            LeakyIntegrate(TAU_AVG_RATES, Segment(avg, SegmentIndex(area, spatno - 1))[u], AreaOf(rates, area)[u], stepSize)
  {
    AveragesSegment(avg, stepsLeft, spatno, rates, stepSize, SegmentIndex(area, spatno - 1));
  }

  /** Every entry of v lies in [lo, hi]. */
  predicate Within(v: seq<real>, lo: real, hi: real)
  {
    forall t :: 0 <= t < |v| ==> lo <= v[t] <= hi
  }

  /** A segment of a vector inside [lo, hi] is inside it too. */
  lemma SegmentWithin(v: seq<real>, s: nat, lo: real, hi: real)
    requires |v| == SEGMENTS * N1 && s < SEGMENTS && Within(v, lo, hi)
    ensures Within(Segment(v, s), lo, hi)
  {
  }

  /** The rates of one area of a vector inside [lo, hi] are inside it too. */
  lemma AreaWithin(v: seq<real>, a: nat, lo: real, hi: real)
    requires |v| == NAREAS * N1 && a < NAREAS && Within(v, lo, hi)
    ensures Within(AreaOf(v, a), lo, hi)
  {
  }

  /** One averaging step of a segment keeps it inside any interval holding both it and the rates. */
  lemma IntegrateWithin(avg: seq<real>, rates: seq<real>, stepSize: real, lo: real, hi: real)
    requires |avg| == |rates| && Within(avg, lo, hi) && Within(rates, lo, hi)
    requires 0.0 <= stepSize <= TAU_AVG_RATES
    ensures Within(IntegrateSegment(avg, rates, stepSize), lo, hi)
  {
    forall u | 0 <= u < |avg|
      ensures lo <= IntegrateSegment(avg, rates, stepSize)[u] <= hi
    {
      var r := LeakyIntegrate(TAU_AVG_RATES, avg[u], rates[u], stepSize);
      assert avg[u] <= rates[u] ==> avg[u] <= r <= rates[u];
      assert rates[u] <= avg[u] ==> rates[u] <= r <= avg[u];
    }
  }

  /**
   * When the averages and the current rates all lie in [lo, hi] (firing
   * rates in [0,1], say), so do the averages after the stage, provided the
   * integration step does not exceed TAU_AVG_RATES.
   */
  lemma AveragesStayWithin(avg: seq<real>, stepsLeft: int, spatno: int, rates: seq<real>, stepSize: real,
                           lo: real, hi: real)
    requires |avg| == SEGMENTS * N1 && |rates| == NAREAS * N1
    requires Within(avg, lo, hi) && Within(rates, lo, hi) && 0.0 <= stepSize <= TAU_AVG_RATES
    ensures Within(RecordAverages(avg, stepsLeft, spatno, rates, stepSize).avgPatts, lo, hi)
  {
    var r := RecordAverages(avg, stepsLeft, spatno, rates, stepSize).avgPatts;
    forall t | 0 <= t < |r|
      ensures lo <= r[t] <= hi
    {
      DivModBounds(t, N1, SEGMENTS);
      var s, u := t / N1, t % N1;
      assert t == N1 * s + u;
      AveragesSegment(avg, stepsLeft, spatno, rates, stepSize, s);
      SegmentAt(r, s, u, t);
      SegmentWithin(avg, s, lo, hi);
      DivModBounds(s, NAREAS, P);
      if Averaging(stepsLeft, spatno) && s / NAREAS == spatno - 1 {
        AreaWithin(rates, s % NAREAS, lo, hi);
        IntegrateWithin(Segment(avg, s), AreaOf(rates, s % NAREAS), stepSize, lo, hi);
      }
    }
  }

  // ---------------------------------------------------------------------
  // The CA stage of a step (standardNet6Areas.c:1378-1416)

  /** The CA bookkeeping of the network between steps. */
  datatype CAState = CAState(avgPatts: seq<real>, caPatts: seq<int>, caOvlps: seq<real>, ovlps: seq<real>,
                             recompute: bool, stepsLeft: int)

  /** The buffers have the sizes the network gives them. */
  predicate CASized(st: CAState)
  {
    |st.avgPatts| == SEGMENTS * N1 && |st.caPatts| == SEGMENTS * N1 && |st.caOvlps| == NAREAS * P * P
  }

  /** The CAs are binary and ca_ovlps describes them. */
  predicate CAConsistent(st: CAState)
    requires CASized(st)
  {
    IsBinary(st.caPatts) && st.caOvlps == ComputeCAOverlaps(st.caPatts)
  }

  /**
   * The CA stage: record the averages; when the sCA_ovlps switch is set,
   * recompute the CAs at CA_THRESH and their overlaps and clear the switch;
   * then compute the overlap of the current activity with every CA.
   */
  function CAStage(st: CAState, rates: seq<real>, spatno: int, stepSize: real): (r: CAState)
    requires CASized(st) && |rates| == NAREAS * N1
    ensures CASized(r) && |r.ovlps| == NAREAS * P && !r.recompute
    ensures !st.recompute ==> r.caPatts == st.caPatts && r.caOvlps == st.caOvlps
  {
    var avg := RecordAverages(st.avgPatts, st.stepsLeft, spatno, rates, stepSize);
    var ca := if st.recompute then ComputeCAPatts(avg.avgPatts, st.caPatts, CA_THRESH) else st.caPatts;
    var caOvlps := if st.recompute then ComputeCAOverlaps(ca) else st.caOvlps;
    CAState(avg.avgPatts, ca, caOvlps, ActivityOverlaps(rates, ca), false, avg.stepsLeft)
  }

  /**
   * The CA stage keeps the CAs binary and ca_ovlps in step with them, and the
   * activity overlaps it reports are the overlaps with the CAs it keeps.
   */
  lemma CAStageConsistent(st: CAState, rates: seq<real>, spatno: int, stepSize: real)
    requires CASized(st) && |rates| == NAREAS * N1 && CAConsistent(st)
    ensures CASized(CAStage(st, rates, spatno, stepSize)) && CAConsistent(CAStage(st, rates, spatno, stepSize))
    ensures ActivityOverlaps(rates, CAStage(st, rates, spatno, stepSize).caPatts) == CAStage(st, rates, spatno, stepSize).ovlps
  {
    if st.recompute {
      var avg := RecordAverages(st.avgPatts, st.stepsLeft, spatno, rates, stepSize);
      CAPattsBinary(avg.avgPatts, st.caPatts, CA_THRESH);
    }
  }
}
