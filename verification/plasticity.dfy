/**
 * The learning stage of one simulation step (standardNet6Areas.c lines
 * 1351-1377). When the learning-rate slider is positive the LTP and LTD
 * totals of every area are cleared and every projection that
 * initialisation gave kernels is trained: a recurrent one (j == i with the
 * diagonal of K set) with the NREC kernel sizes and the bank at
 * NSQR1*(NAREAS+1)*j, a between-area one (K[NAREAS*j+i] set) with the NFFB
 * sizes and the bank at NSQR1*(NAREAS*j+i). The presynaptic rates are those
 * of area j, the postsynaptic potentials those of area i, and the amounts
 * go to the totals of area i.
 *
 * Each projection is trained block-indexed (Learning.BlockTrained), which
 * for the simulator's odd kernel sizes is what train_projection_cyclic does.
 */
module Plasticity {
  import opened Params
  import opened Sums
  import opened Correlation
  import opened Learning
  import opened Kernels
  import opened Network

  /** The area, kernel and field sizes train_projection_cyclic gets for a projection. */
  function KernelGeometry(p: Projection): (g: Geometry)
    ensures g.w * g.h == N1 && g.kh % 2 == 1 && g.kw % 2 == 1
  {
    if p == Recurrent then Geometry(N11, N12, NREC1, NREC2) else Geometry(N11, N12, NFFB1, NFFB2)
  }

  /** The lengths the network gives the buffers the learning stage reads and writes. */
  predicate PassArgs(J: seq<real>, k: seq<int>, rates: seq<real>, pot: seq<real>)
  {
    |k| == NAREAS * NAREAS && |J| == NAREAS * NAREAS * NSQR1 && |rates| == NAREAS * N1 && |pot| == NAREAS * N1
  }

  /** Kernel bank s of J: the NSQR1 entries of the projection from area s/NAREAS+1 to area s%NAREAS+1. */
  function Bank(J: seq<real>, s: nat): (b: seq<real>)
    requires |J| == NAREAS * NAREAS * NSQR1 && s < NAREAS * NAREAS
    ensures |b| == NSQR1
  {
    MulMonotone(s + 1, NAREAS * NAREAS, NSQR1);
    J[NSQR1 * s..NSQR1 * s + NSQR1]
  }

  /** The N1 cells of area a in an all-areas vector. */
  function AreaOf(v: seq<real>, a: nat): (r: seq<real>)
    requires |v| == NAREAS * N1 && a < NAREAS
    ensures |r| == N1
  {
    MulMonotone(a + 1, NAREAS, N1);
    v[N1 * a..N1 * a + N1]
  }

  /** A bank of J and the areas of a projection are long enough for block-indexed training. */
  lemma BankFits(J: seq<real>, rates: seq<real>, pot: seq<real>, s: nat, j: nat, i: nat, p: Projection)
    requires |J| == NAREAS * NAREAS * NSQR1 && |rates| == NAREAS * N1 && |pot| == NAREAS * N1
    requires s < NAREAS * NAREAS && j < NAREAS && i < NAREAS
    ensures BlockArgs(Bank(J, s), AreaOf(rates, j), AreaOf(pot, i), KernelGeometry(p))
  {
    KernelBankFits();
  }

  /** Bank s after the learning stage: trained when its projection has kernels, as before otherwise. */
  function TrainedBank(J: seq<real>, k: seq<int>, rates: seq<real>, pot: seq<real>, hrate: real, s: nat): (b: seq<real>)
    requires PassArgs(J, k, rates, pot) && s < NAREAS * NAREAS
    ensures |b| == NSQR1
    ensures forall u :: 0 <= u < NSQR1 && Bank(J, s)[u] == NO_SYNAPSE ==> b[u] == NO_SYNAPSE
  {
    var j, i := s / NAREAS, s % NAREAS;
    var p := ProjectionOf(k, j, i);
    if p == Absent then Bank(J, s)
    else
      BankFits(J, rates, pot, s, j, i, p);
      BlockTrainedKeeps(Bank(J, s), AreaOf(rates, j), AreaOf(pot, i), KernelGeometry(p), hrate);
      BlockTrained(Bank(J, s), AreaOf(rates, j), AreaOf(pot, i), KernelGeometry(p), hrate)
  }

  /** The LTP (or, with ltd set, LTD) amount the projection from area j+1 adds to area i+1's total. */
  function ProjectionAmount(J: seq<real>, k: seq<int>, rates: seq<real>, pot: seq<real>, hrate: real,
                            j: nat, i: nat, ltd: bool): real
    requires PassArgs(J, k, rates, pot) && j < NAREAS && i < NAREAS
  {
    var p := ProjectionOf(k, j, i);
    if p == Absent then 0.0
    else
      var s := NAREAS * j + i;
      var g := KernelGeometry(p);
      BankFits(J, rates, pot, s, j, i, p);
      if ltd then Sigma(BlockLtdOf(Bank(J, s), AreaOf(rates, j), AreaOf(pot, i), g, hrate), 0, g.w * g.h * (g.kw * g.kh) - 1)
      else Sigma(BlockLtpOf(Bank(J, s), AreaOf(rates, j), AreaOf(pot, i), g, hrate), 0, g.w * g.h * (g.kw * g.kh) - 1)
  }

  /** The total of area i+1 after the learning stage: the amounts of all projections into it. */
  function AreaTotal(J: seq<real>, k: seq<int>, rates: seq<real>, pot: seq<real>, hrate: real, i: nat, ltd: bool): real
    requires PassArgs(J, k, rates, pot) && i < NAREAS
  {
    Sigma(j => if 0 <= j < NAREAS then ProjectionAmount(J, k, rates, pot, hrate, j, i, ltd) else 0.0, 0, NAREAS - 1)
  }

  /** The synapses and the LTP/LTD totals of the network. */
  datatype Learned = Learned(J: seq<real>, totLTP: seq<real>, totLTD: seq<real>)

  /**
   * The learning stage: nothing happens unless slrate is positive; then the
   * totals restart from zero and every bank is replaced by its trained bank.
   */
  function LearningPass(J: seq<real>, k: seq<int>, rates: seq<real>, pot: seq<real>, hrate: real, slrate: int,
                        totLTP: seq<real>, totLTD: seq<real>): (r: Learned)
    requires PassArgs(J, k, rates, pot)
    ensures slrate <= 0 ==> r == Learned(J, totLTP, totLTD)
    ensures slrate > 0 ==> |r.J| == |J| && |r.totLTP| == NAREAS && |r.totLTD| == NAREAS
  {
    if slrate <= 0 then Learned(J, totLTP, totLTD)
    else
      var banks := seq(NAREAS * NAREAS, s requires 0 <= s < NAREAS * NAREAS => TrainedBank(J, k, rates, pot, hrate, s));
      JoinLength(banks, NSQR1);
      Learned(Join(banks),
              seq(NAREAS, i requires 0 <= i < NAREAS => AreaTotal(J, k, rates, pot, hrate, i, false)),
              seq(NAREAS, i requires 0 <= i < NAREAS => AreaTotal(J, k, rates, pot, hrate, i, true)))
  }

  /** With learning on, bank s of the result is the trained bank s. */
  lemma PassBank(J: seq<real>, k: seq<int>, rates: seq<real>, pot: seq<real>, hrate: real, slrate: int,
                 totLTP: seq<real>, totLTD: seq<real>, s: nat)
    requires PassArgs(J, k, rates, pot) && slrate > 0 && s < NAREAS * NAREAS
    ensures Bank(LearningPass(J, k, rates, pot, hrate, slrate, totLTP, totLTD).J, s) == TrainedBank(J, k, rates, pot, hrate, s)
  {
    var banks := seq(NAREAS * NAREAS, s requires 0 <= s < NAREAS * NAREAS => TrainedBank(J, k, rates, pot, hrate, s));
    JoinSlice(banks, NSQR1, s);
  }

  /**
   * With learning on, the bank of a projection that has kernels is exactly
   * what train_projection_cyclic leaves behind with the projection's sizes,
   * the rates of area j+1 and the potentials of area i+1, and the bank of a
   * projection without kernels is untouched.
   */
  lemma PassTrainsLinked(J: seq<real>, k: seq<int>, rates: seq<real>, pot: seq<real>, hrate: real, slrate: int,
                         totLTP: seq<real>, totLTD: seq<real>, j: nat, i: nat)
    requires PassArgs(J, k, rates, pot) && slrate > 0 && j < NAREAS && i < NAREAS
    ensures NAREAS * j + i < NAREAS * NAREAS
    ensures ProjectionOf(k, j, i) == Absent ==>
      Bank(LearningPass(J, k, rates, pot, hrate, slrate, totLTP, totLTD).J, NAREAS * j + i) == Bank(J, NAREAS * j + i)
    ensures ProjectionOf(k, j, i) != Absent ==>
      TrainArgs(Bank(J, NAREAS * j + i), AreaOf(rates, j), AreaOf(pot, i), KernelGeometry(ProjectionOf(k, j, i))) &&
      Bank(LearningPass(J, k, rates, pot, hrate, slrate, totLTP, totLTD).J, NAREAS * j + i)
        == Trained(Bank(J, NAREAS * j + i), AreaOf(rates, j), AreaOf(pot, i), KernelGeometry(ProjectionOf(k, j, i)), hrate)
  {
    var s := NAREAS * j + i;
    assert s < NAREAS * NAREAS;
    PassBank(J, k, rates, pot, hrate, slrate, totLTP, totLTD, s);
    TrainedBankIsSource(J, k, rates, pot, hrate, j, i);
  }

  /** The trained bank of projection (j, i) is the bank train_projection_cyclic leaves, or the old bank if it has no kernels. */
  lemma TrainedBankIsSource(J: seq<real>, k: seq<int>, rates: seq<real>, pot: seq<real>, hrate: real, j: nat, i: nat)
    requires PassArgs(J, k, rates, pot) && j < NAREAS && i < NAREAS
    ensures NAREAS * j + i < NAREAS * NAREAS
    ensures ProjectionOf(k, j, i) == Absent ==> TrainedBank(J, k, rates, pot, hrate, NAREAS * j + i) == Bank(J, NAREAS * j + i)
    ensures ProjectionOf(k, j, i) != Absent ==>
      TrainArgs(Bank(J, NAREAS * j + i), AreaOf(rates, j), AreaOf(pot, i), KernelGeometry(ProjectionOf(k, j, i))) &&
      TrainedBank(J, k, rates, pot, hrate, NAREAS * j + i)
        == Trained(Bank(J, NAREAS * j + i), AreaOf(rates, j), AreaOf(pot, i), KernelGeometry(ProjectionOf(k, j, i)), hrate)
  {
    var s := NAREAS * j + i;
    assert s / NAREAS == j && s % NAREAS == i;
    var p := ProjectionOf(k, j, i);
    if p != Absent {
      var g := KernelGeometry(p);
      KernelBankFits();
      RollingIsBlock(g, 0, 0, 0);
      assert TrainArgs(Bank(J, s), AreaOf(rates, j), AreaOf(pot, i), g);
      BlockAgreesOnOdd(Bank(J, s), AreaOf(rates, j), AreaOf(pot, i), g, hrate);
    }
  }

  /** With learning on, each area's totals restart from zero and add the amounts of its incoming projections. */
  lemma PassTotals(J: seq<real>, k: seq<int>, rates: seq<real>, pot: seq<real>, hrate: real, slrate: int,
                   totLTP: seq<real>, totLTD: seq<real>, i: nat)
    requires PassArgs(J, k, rates, pot) && slrate > 0 && i < NAREAS
    ensures LearningPass(J, k, rates, pot, hrate, slrate, totLTP, totLTD).totLTP[i] == AreaTotal(J, k, rates, pot, hrate, i, false)
    ensures LearningPass(J, k, rates, pot, hrate, slrate, totLTP, totLTD).totLTD[i] == AreaTotal(J, k, rates, pot, hrate, i, true)
    ensures hrate >= 0.0 ==> LearningPass(J, k, rates, pot, hrate, slrate, totLTP, totLTD).totLTP[i] >= 0.0
    ensures hrate >= 0.0 ==> LearningPass(J, k, rates, pot, hrate, slrate, totLTP, totLTD).totLTD[i] >= 0.0
  {
    if hrate >= 0.0 {
      forall j | 0 <= j <= NAREAS - 1
        ensures ProjectionAmount(J, k, rates, pot, hrate, j, i, false) >= 0.0
        ensures ProjectionAmount(J, k, rates, pot, hrate, j, i, true) >= 0.0
      {
        var p := ProjectionOf(k, j, i);
        if p != Absent {
          var g := KernelGeometry(p);
          BankFits(J, rates, pot, NAREAS * j + i, j, i, p);
          BlockTotalsGrow(Bank(J, NAREAS * j + i), AreaOf(rates, j), AreaOf(pot, i), g, hrate);
        }
      }
      SigmaNonNegative(j => if 0 <= j < NAREAS then ProjectionAmount(J, k, rates, pot, hrate, j, i, false) else 0.0, 0, NAREAS - 1);
      SigmaNonNegative(j => if 0 <= j < NAREAS then ProjectionAmount(J, k, rates, pot, hrate, j, i, true) else 0.0, 0, NAREAS - 1);
    }
  }

  /** An absent synapse (NO_SYNAPSE) anywhere in J stays absent through the learning stage. */
  lemma PassKeepsAbsentSynapses(J: seq<real>, k: seq<int>, rates: seq<real>, pot: seq<real>, hrate: real, slrate: int,
                                totLTP: seq<real>, totLTD: seq<real>, t: nat)
    requires PassArgs(J, k, rates, pot) && t < |J| && J[t] == NO_SYNAPSE
    ensures |LearningPass(J, k, rates, pot, hrate, slrate, totLTP, totLTD).J| == |J|
    ensures LearningPass(J, k, rates, pot, hrate, slrate, totLTP, totLTD).J[t] == NO_SYNAPSE
  {
    if slrate > 0 {
      var r := LearningPass(J, k, rates, pot, hrate, slrate, totLTP, totLTD);
      DivModBounds(t, NSQR1, NAREAS * NAREAS);
      var s, u := t / NSQR1, t % NSQR1;
      BankEntry(J, s, u, t);
      BankEntry(r.J, s, u, t);
      PassBank(J, k, rates, pot, hrate, slrate, totLTP, totLTD, s);
    }
  }

  /** Entry u of bank s is entry NSQR1*s + u of J. */
  lemma BankEntry(J: seq<real>, s: nat, u: nat, t: nat)
    requires |J| == NAREAS * NAREAS * NSQR1 && s < NAREAS * NAREAS && u < NSQR1 && t == s * NSQR1 + u
    ensures t < |J| && Bank(J, s)[u] == J[t]
  {
  }

  /** In the network's K, only the banks of areas more than one apart are left alone by the learning stage. */
  lemma PassOnK(J: seq<real>, rates: seq<real>, pot: seq<real>, hrate: real, slrate: int,
                totLTP: seq<real>, totLTD: seq<real>, j: nat, i: nat)
    requires PassArgs(J, K, rates, pot) && slrate > 0 && j < NAREAS && i < NAREAS
    ensures NAREAS * j + i < NAREAS * NAREAS
    ensures ProjectionOf(K, j, i) != Absent <==> j == i || j == i + 1 || i == j + 1
    ensures (j > i + 1 || i > j + 1) ==>
      Bank(LearningPass(J, K, rates, pot, hrate, slrate, totLTP, totLTD).J, NAREAS * j + i) == Bank(J, NAREAS * j + i)
  {
    KProjections(j, i);
    PassTrainsLinked(J, K, rates, pot, hrate, slrate, totLTP, totLTD, j, i);
  }
}
