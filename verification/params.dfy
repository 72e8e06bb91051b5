/**
 * The constants of the six-area network (standardNet6Areas.c lines 26-162,
 * mirrored in server/models/standardNet6Areas.py lines 7-134). Only the
 * constants the modelled operations read are declared here.
 */
module Params {

  // Network geometry
  const NXAREAS: nat := 6
  const NYAREAS: nat := 1
  const NAREAS: nat := NXAREAS * NYAREAS
  const N11: nat := 25
  const N12: nat := 25
  const N1: nat := N11 * N12
  const NSQR1: nat := N1 * N1

  // Patterns and cell assemblies
  const P: nat := 12
  const NONES: nat := 19
  const CA_THRESH: real := 0.5
  const MIN_CELLRATE: real := 0.10

  // Kernel sizes (x, y)
  const NFFB1: nat := 19
  const NFFB2: nat := 19
  const NREC1: nat := 19
  const NREC2: nat := 19
  const NINH1: nat := 5
  const NINH2: nat := 5

  // Kernel initialisation
  const SIGMAX: real := 6.5
  const SIGMAY: real := 6.5
  const SIGMAX_REC: real := 4.5
  const SIGMAY_REC: real := 4.5
  const SIGMAX_INH: real := 2.0
  const SIGMAY_INH: real := 2.0
  const J_PROB: real := 0.28
  const J_REC_PROB: real := 0.15
  const J_INH_INIT: real := 0.295
  const J_UPPER: real := 0.1

  // Synaptic bounds and learning thresholds
  const JMIN: real := 0.00000001
  const JMAX: real := 0.225
  const LTP_THRESH: real := 0.15
  const LTD_THRESH: real := 0.15
  const F_THRESH: real := 0.05
  const NO_SYNAPSE: real := 0.0

  // Time constants
  const STEPSIZE: real := 0.5
  const TAU1: real := 2.5
  const TAU2: real := 5.0
  const TAUSLOW: real := 12.0
  const ADAPTSTRENGTH: real := 0.01
  const TAUADAPT: real := 15.0
  const TAU_AVG_RATES: real := 10.0
  const AVG_RATES_TIME: nat := 30

  // Automated training
  const PAUSE_TIME: int := 30
  const INPUT_TIME: int := 16
  const SAVE_CYCLE: int := 500
  const LEARN_RATE: int := 8
  const TOT_TRAINING: int := 4000
  const SLOWAREA1: nat := 0
  const MAXINHIB1: real := 0.75
  const SLOWAREA2: nat := 2
  const MAXINHIB2: real := 0.65

  /**
   * A synapse that has decayed to the minimum weight stays distinguishable
   * from an absent one, and the weight window is not empty.
   */
  lemma SynapticBoundsOrdered()
    ensures NO_SYNAPSE < JMIN < JMAX
  {
  }
}
