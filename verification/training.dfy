/**
 * The automated-training controller of a simulation step
 * (standardNet6Areas.c lines 1038-1116).
 *
 * While the trainNet switch is on, the controller cycles through a PAUSE
 * phase (1), in which white noise is shown until enough steps have passed
 * and the global inhibition of two monitored areas has decayed, and an
 * INPUT phase (2), in which one of the P training patterns is shown for
 * INPUT_TIME steps. The pattern to show is picked so that the presentation
 * counts stay balanced. Phase 0 prepares the first pause; any other phase
 * value ends the training (the C program exits).
 */
module Training {
  import opened Params
  import opened Sums
  import opened Vectors
  import opened Assemblies

  // ---------------------------------------------------------------------
  // The pattern picker (standardNet6Areas.c:1061-1071)

  /** The pattern index the picker tries in its e-th round when it starts from `start`. */
  function Candidate(start: nat, e: nat): (c: nat)
    ensures c < P
  {
    (start + e) % P
  }

  /** Pattern c was shown no more often than the next one (cyclically): the picker accepts it. */
  predicate Balanced(freq: seq<int>, c: nat)
    requires |freq| == P && c < P
  {
    freq[c] <= freq[(c + 1) % P]
  }

  /** Some round from d on (before P rounds are done) would be accepted. */
  ghost predicate Reachable(freq: seq<int>, start: nat, d: nat)
    requires |freq| == P
  {
    exists e :: d <= e < P && Balanced(freq, Candidate(start, e))
  }

  /** The next candidate is one further round the cycle. */
  lemma CandidateNext(start: nat, e: nat)
    ensures Candidate(start, e + 1) == (Candidate(start, e) + 1) % P
  {
    var q, c := (start + e) / P, (start + e) % P;
    if c + 1 < P {
      DivModUnique(start + e + 1, P, q, c + 1);
    } else {
      DivModUnique(start + e + 1, P, q + 1, 0);
    }
  }

  /** If no pattern were accepted, the counts would strictly fall all around the cycle. */
  lemma {:induction false} DescendingChain(freq: seq<int>, k: nat)
    requires |freq| == P && k <= P
    requires forall c :: 0 <= c < P ==> !Balanced(freq, c)
    ensures freq[0] >= freq[k % P] + k
  {
    if k > 0 {
      DescendingChain(freq, k - 1);
      assert !Balanced(freq, k - 1);
      assert (k - 1) % P == k - 1 && ((k - 1) + 1) % P == k % P;
    }
  }

  /** Around the cycle not every count can exceed its successor's, so some round is accepted. */
  lemma SomeBalanced(freq: seq<int>)
    requires |freq| == P
    ensures exists c :: 0 <= c < P && Balanced(freq, c)
  {
    if forall c :: 0 <= c < P ==> !Balanced(freq, c) {
      DescendingChain(freq, P);
      assert false;
    }
  }

  /** From any start the picker reaches an accepted pattern within P rounds. */
  lemma PickerTerminates(freq: seq<int>, start: nat)
    requires |freq| == P
    ensures Reachable(freq, start, 0)
  {
    SomeBalanced(freq);
    var c :| 0 <= c < P && Balanced(freq, c);
    var s0 := start % P;
    var e := if c >= s0 then c - s0 else c - s0 + P;
    if c >= s0 {
      DivModUnique(start + e, P, start / P, c);
    } else {
      DivModUnique(start + e, P, start / P + 1, c);
    }
    assert Candidate(start, e) == c;
  }

  /** The first accepted round from round d on. */
  function PickFrom(freq: seq<int>, start: nat, d: nat): (e: nat)
    requires |freq| == P && d < P && Reachable(freq, start, d)
    ensures d <= e < P && Balanced(freq, Candidate(start, e))
    ensures forall x :: d <= x < e ==> !Balanced(freq, Candidate(start, x))
    decreases P - d
  {
    if Balanced(freq, Candidate(start, d)) then d
    else
      assert d + 1 < P && Reachable(freq, start, d + 1) by {
        var e :| d <= e < P && Balanced(freq, Candidate(start, e));
        assert e != d;
      }
      PickFrom(freq, start, d + 1)
  }

  /**
   * The pattern number (1..P) the picker selects. It is the first pattern,
   * going round the cycle from start mod P, whose count does not exceed its
   * successor's.
   */
  function PickPattern(freq: seq<int>, start: nat): (pattNo: int)
    requires |freq| == P
    ensures 1 <= pattNo <= P
    ensures freq[pattNo - 1] <= freq[pattNo % P]
  {
    PickerTerminates(freq, start);
    Candidate(start, PickFrom(freq, start, 0)) + 1
  }

  /**
   * The picker as the C do-while loop runs it: it starts from the scaled
   * draw, moves one pattern on per round and stops at the first pattern
   * whose count does not exceed the next one's. It stops within P rounds
   * and selects what PickPattern selects.
   */
  method PickPatternLoop(freq: seq<int>, start: nat) returns (pattNo: int, rounds: nat)
    requires |freq| == P
    ensures pattNo == PickPattern(freq, start)
    ensures 1 <= rounds <= P
    ensures pattNo - 1 == Candidate(start, rounds - 1)
    ensures forall x :: 0 <= x < rounds - 1 ==> freq[Candidate(start, x)] > freq[(Candidate(start, x) + 1) % P]
  {
    PickerTerminates(freq, start);
    ghost var target := PickFrom(freq, start, 0);
    pattNo := start % P + 1;
    rounds := 1;
    assert start % P == Candidate(start, 0);
    while !Balanced(freq, pattNo - 1)
      invariant 1 <= rounds <= target + 1
      invariant pattNo - 1 == Candidate(start, rounds - 1)
      invariant forall x :: 0 <= x < rounds - 1 ==> !Balanced(freq, Candidate(start, x))
      decreases target + 1 - rounds
    {
      assert rounds - 1 != target;
      NextRound(start, rounds, pattNo);
      pattNo := pattNo % P + 1;
      rounds := rounds + 1;
    }
    assert Balanced(freq, Candidate(start, rounds - 1));
  }

  /** The picker's step from one pattern number to the next follows the candidates. */
  lemma NextRound(start: nat, rounds: nat, pattNo: int)
    requires rounds >= 1 && pattNo - 1 == Candidate(start, rounds - 1)
    ensures pattNo % P + 1 - 1 == Candidate(start, rounds)
  {
    CandidateNext(start, rounds - 1);
  }

  /** The draw of equal_noise scaled and truncated as the picker's starting value. */
  function StartOf(draw: real): (start: nat)
    requires 0.0 <= draw < 1.0
    ensures start <= 1234
  {
    (1234.56 * draw).Floor
  }

  /** The counts after showing pattern pattNo once more. */
  function Present(freq: seq<int>, pattNo: int): (r: seq<int>)
    requires |freq| == P && 1 <= pattNo <= P
    ensures |r| == P && r[pattNo - 1] == freq[pattNo - 1] + 1
    ensures forall c :: 0 <= c < P && c != pattNo - 1 ==> r[c] == freq[c]
  {
    freq[pattNo - 1 := freq[pattNo - 1] + 1]
  }

  /** Pattern c was shown at most once more than the next one (cyclically). */
  predicate NearlyBalanced(freq: seq<int>, c: nat)
    requires |freq| == P && c < P
  {
    freq[c] <= freq[(c + 1) % P] + 1
  }

  /** No count exceeds the next one's (cyclically) by more than one. */
  predicate BalancedCounts(freq: seq<int>)
  {
    |freq| == P && forall c :: 0 <= c < P ==> NearlyBalanced(freq, c)
  }

  /** Presenting the picked pattern keeps the counts balanced. */
  lemma PresentKeepsBalance(freq: seq<int>, start: nat)
    requires BalancedCounts(freq)
    ensures BalancedCounts(Present(freq, PickPattern(freq, start)))
  {
    var p := PickPattern(freq, start);
    var r := Present(freq, p);
    forall c | 0 <= c < P
      ensures NearlyBalanced(r, c)
    {
      assert NearlyBalanced(freq, c);
      if c == p - 1 {
        assert (c + 1) % P == p % P;
      }
    }
  }

  /** Walking k steps round the cycle lowers a count by at most k. */
  lemma {:induction false} BalancedWalk(freq: seq<int>, a: nat, k: nat)
    requires BalancedCounts(freq) && a < P
    ensures freq[a] <= freq[Candidate(a, k)] + k
  {
    if k > 0 {
      BalancedWalk(freq, a, k - 1);
      CandidateNext(a, k - 1);
      assert NearlyBalanced(freq, Candidate(a, k - 1));
    } else {
      assert Candidate(a, 0) == a;
    }
  }

  /** With balanced counts no pattern was shown more than P-1 times more often than another. */
  lemma BalancedSpread(freq: seq<int>, a: nat, b: nat)
    requires BalancedCounts(freq) && a < P && b < P
    ensures freq[a] <= freq[b] + (P - 1)
  {
    var k := if b >= a then b - a else b - a + P;
    BalancedWalk(freq, a, k);
    if b >= a {
      DivModUnique(a + k, P, 0, b);
    } else {
      DivModUnique(a + k, P, 1, b);
    }
  }

  // ---------------------------------------------------------------------
  // The training phases (standardNet6Areas.c:1038-1116)

  /** The variables of the training controller and the CA buffers it recomputes. */
  datatype Trainer = Trainer(
    training: bool,        // the trainNet switch
    phase: int,            // training_phase
    lastStp: int,          // the step of the last phase switch
    freq: seq<int>,        // presentations of each pattern
    stepsToAvg: int,       // steps of averaging left
    spatno: int,           // the pattern slider (0 none, P+1 noise)
    slrate: int,           // the learning-rate slider
    saveNet: bool,         // the saveNet switch
    exited: bool,          // the program has ended
    avgPatts: seq<real>,
    caPatts: seq<int>,
    caOvlps: seq<real>)

  /** The buffers have the sizes the network gives them. */
  predicate TrainerSized(t: Trainer)
  {
    |t.freq| == P && |t.avgPatts| == SEGMENTS * N1 && |t.caPatts| == SEGMENTS * N1 && |t.caOvlps| == NAREAS * P * P
  }

  /** The counts at which the network is saved after an input phase. */
  predicate SaveDue(frq: int)
  {
    frq > 0 && (frq % SAVE_CYCLE == 0 || (frq <= 50 && frq % 10 == 0) || (frq < SAVE_CYCLE && frq % 100 == 0))
  }

  /**
   * The saving schedule: every 10 presentations up to 50, every 100 up to
   * SAVE_CYCLE, every SAVE_CYCLE after that.
   */
  lemma SaveSchedule(frq: int)
    ensures 0 < frq <= 50 ==> (SaveDue(frq) <==> frq % 10 == 0)
    ensures 50 < frq < SAVE_CYCLE ==> (SaveDue(frq) <==> frq % 100 == 0)
    ensures frq >= SAVE_CYCLE ==> (SaveDue(frq) <==> frq % SAVE_CYCLE == 0)
    ensures frq <= 0 ==> !SaveDue(frq)
  {
  }

  /** The pause is over: enough steps have passed and both monitored inhibition levels have decayed. */
  predicate PauseOver(t: Trainer, stp: int, slowinh: seq<real>)
    requires |slowinh| == NAREAS
  {
    stp - t.lastStp >= PAUSE_TIME && slowinh[SLOWAREA1] < MAXINHIB1 && slowinh[SLOWAREA2] < MAXINHIB2
  }

  /**
   * One step of the training controller at time step stp, given the slow
   * inhibition of every area and the uniform draw the picker starts from.
   */
  function TrainingStep(t: Trainer, stp: int, slowinh: seq<real>, draw: real): (r: Trainer)
    requires TrainerSized(t) && |slowinh| == NAREAS && 0.0 <= draw < 1.0
    ensures TrainerSized(r)
    ensures !t.training ==> r == t
  {
    if !t.training then t
    else if t.phase == 0 then
      t.(lastStp := stp, spatno := P + 1, saveNet := true, phase := 1)
    else if t.phase == 1 then
      if PauseOver(t, stp, slowinh) then
        var pattNo := PickPattern(t.freq, StartOf(draw));
        t.(spatno := pattNo, stepsToAvg := AVG_RATES_TIME, freq := Present(t.freq, pattNo), lastStp := stp, phase := 2)
      else t
    else if t.phase == 2 then
      if stp - t.lastStp >= INPUT_TIME then
        if t.freq[0] > TOT_TRAINING then t.(phase := 3)
        else
          var ca := ComputeCAPatts(t.avgPatts, t.caPatts, CA_THRESH);
          t.(saveNet := t.saveNet || SaveDue(t.freq[0]), spatno := P + 1, lastStp := stp,
             caPatts := ca, caOvlps := ComputeCAOverlaps(ca), slrate := LEARN_RATE, phase := 1)
      else t
    else
      t.(training := false, exited := true)
  }

  /** Phase 0 starts a pause showing noise, asks for the network to be saved, and moves to phase 1. */
  lemma PrepareStep(t: Trainer, stp: int, slowinh: seq<real>, draw: real)
    requires TrainerSized(t) && |slowinh| == NAREAS && 0.0 <= draw < 1.0
    requires t.training && t.phase == 0
    ensures var r := TrainingStep(t, stp, slowinh, draw);
            r.phase == 1 && r.spatno == P + 1 && r.saveNet && r.lastStp == stp && r.freq == t.freq && r.exited == t.exited
  {
  }

  /** A pause ends exactly when PauseOver holds; until then nothing changes. */
  lemma PauseGuard(t: Trainer, stp: int, slowinh: seq<real>, draw: real)
    requires TrainerSized(t) && |slowinh| == NAREAS && 0.0 <= draw < 1.0
    requires t.training && t.phase == 1
    ensures var r := TrainingStep(t, stp, slowinh, draw);
            (r.phase == 2 <==> PauseOver(t, stp, slowinh)) && (!PauseOver(t, stp, slowinh) ==> r == t)
  {
  }

  /**
   * When a pause ends, a pattern in 1..P whose count does not exceed the
   * next pattern's is shown, that one presentation and no other is counted,
   * averaging starts for AVG_RATES_TIME steps and the step is recorded.
   */
  lemma PauseStep(t: Trainer, stp: int, slowinh: seq<real>, draw: real)
    requires TrainerSized(t) && |slowinh| == NAREAS && 0.0 <= draw < 1.0
    requires t.training && t.phase == 1 && PauseOver(t, stp, slowinh)
    ensures var r := TrainingStep(t, stp, slowinh, draw);
            1 <= r.spatno <= P && t.freq[r.spatno - 1] <= t.freq[r.spatno % P] &&
            r.freq[r.spatno - 1] == t.freq[r.spatno - 1] + 1 &&
            (forall c :: 0 <= c < P && c != r.spatno - 1 ==> r.freq[c] == t.freq[c]) &&
            r.stepsToAvg == AVG_RATES_TIME && r.lastStp == stp && r.training && r.exited == t.exited
  {
    var p := PickPattern(t.freq, StartOf(draw));
    assert TrainingStep(t, stp, slowinh, draw) ==
           t.(spatno := p, stepsToAvg := AVG_RATES_TIME, freq := Present(t.freq, p), lastStp := stp, phase := 2);
  }

  /**
   * An input phase lasts INPUT_TIME steps. Then, if pattern 1 has been
   * shown more than TOT_TRAINING times, training moves to its terminal
   * phase; otherwise a pause showing noise starts, the CAs and their
   * overlaps are recomputed, learning is switched on at LEARN_RATE and the
   * network is saved when the count of pattern 1 is due.
   */
  lemma InputStep(t: Trainer, stp: int, slowinh: seq<real>, draw: real)
    requires TrainerSized(t) && |slowinh| == NAREAS && 0.0 <= draw < 1.0
    requires t.training && t.phase == 2
    ensures var r := TrainingStep(t, stp, slowinh, draw);
            stp - t.lastStp < INPUT_TIME ==> r == t
    ensures var r := TrainingStep(t, stp, slowinh, draw);
            stp - t.lastStp >= INPUT_TIME && t.freq[0] > TOT_TRAINING ==>
              r.phase != 0 && r.phase != 1 && r.phase != 2 && r.training && r.freq == t.freq
    ensures var r := TrainingStep(t, stp, slowinh, draw);
            stp - t.lastStp >= INPUT_TIME && t.freq[0] <= TOT_TRAINING ==>
              r.phase == 1 && r.spatno == P + 1 && r.slrate == LEARN_RATE && r.lastStp == stp &&
              r.freq == t.freq && (r.saveNet <==> t.saveNet || SaveDue(t.freq[0])) &&
              r.caPatts == ComputeCAPatts(t.avgPatts, t.caPatts, CA_THRESH) &&
              r.caOvlps == ComputeCAOverlaps(r.caPatts)
  {
  }

  /** Any other phase switches training off and ends the program. */
  lemma TerminalStep(t: Trainer, stp: int, slowinh: seq<real>, draw: real)
    requires TrainerSized(t) && |slowinh| == NAREAS && 0.0 <= draw < 1.0
    requires t.training && t.phase != 0 && t.phase != 1 && t.phase != 2
    ensures var r := TrainingStep(t, stp, slowinh, draw);
            r.exited && !r.training && r.freq == t.freq
  {
  }

  /** The controller's lasting guarantees: balanced, non-negative counts and binary CAs with up-to-date overlaps. */
  predicate TrainerInvariant(t: Trainer)
  {
    TrainerSized(t) && BalancedCounts(t.freq) && (forall c :: 0 <= c < P ==> t.freq[c] >= 0) &&
    IsBinary(t.caPatts) && t.caOvlps == ComputeCAOverlaps(t.caPatts)
  }

  /** Every step of the controller keeps its invariant. */
  lemma TrainingKeepsInvariant(t: Trainer, stp: int, slowinh: seq<real>, draw: real)
    requires TrainerInvariant(t) && |slowinh| == NAREAS && 0.0 <= draw < 1.0
    ensures TrainerInvariant(TrainingStep(t, stp, slowinh, draw))
  {
    if t.training && t.phase == 1 && PauseOver(t, stp, slowinh) {
      PresentKeepsBalance(t.freq, StartOf(draw));
    } else if t.training && t.phase == 2 {
      CAPattsBinary(t.avgPatts, t.caPatts, CA_THRESH);
    }
  }

  /**
   * The controller the simulation starts with: training on, phase 0, no
   * presentations, no averaging, noise shown, learning off, and cleared
   * averages, CAs and overlaps.
   */
  function InitialTrainer(): (t: Trainer)
    ensures TrainerSized(t)
  {
    Trainer(true, 0, 0, seq(P, c => 0), 0, P + 1, 0, false, false,
            Zeros(SEGMENTS * N1), BZeros(SEGMENTS * N1), Zeros(NAREAS * P * P))
  }

  /** The controller the simulation starts with satisfies the invariant. */
  lemma InitialTrainerInvariant()
    ensures TrainerInvariant(InitialTrainer())
  {
    NoCAsNoOverlaps();
  }
}
