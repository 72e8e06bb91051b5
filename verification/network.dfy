/**
 * The connectivity matrix of the six areas and the whole-network state
 * record with its two zeroing operations: main_init, which allocates every
 * buffer, and resetNet, which silences the activity while keeping the
 * synaptic weights (server/models/standardNet6Areas.py, mirrored by
 * standardNet6Areas.c).
 */
module Network {
  import opened Params
  import opened Correlation

  /**
   * K: entry NAREAS*j + i is 1 when area j+1 projects to area i+1, written
   * row by row (one row per sending area). The six areas form a chain in
   * which every area is recurrent and talks to its neighbours in both
   * directions.
   */
  const K: seq<int> := KRow0 + KRow1 + KRow2 + KRow3 + KRow4 + KRow5
  const KRow0: seq<int> := [1, 1, 0, 0, 0, 0]
  const KRow1: seq<int> := [1, 1, 1, 0, 0, 0]
  const KRow2: seq<int> := [0, 1, 1, 1, 0, 0]
  const KRow3: seq<int> := [0, 0, 1, 1, 1, 0]
  const KRow4: seq<int> := [0, 0, 0, 1, 1, 1]
  const KRow5: seq<int> := [0, 0, 0, 0, 1, 1]

  /** Area j+1 projects to area i+1 in the connectivity matrix k. */
  predicate Links(k: seq<int>, j: nat, i: nat)
    requires |k| == NAREAS * NAREAS && j < NAREAS && i < NAREAS
  {
    k[NAREAS * j + i] != 0
  }

  /** Neighbouring or equal areas: the band K fills. */
  predicate Near(j: int, i: int)
  {
    -1 <= j - i <= 1
  }

  /** K is a 0/1 matrix, symmetric, with every area recurrent, linking exactly neighbours. */
  lemma KShape()
    ensures |K| == NAREAS * NAREAS
    ensures forall q :: 0 <= q < |K| ==> K[q] == 0 || K[q] == 1
    ensures forall j, i :: 0 <= j < NAREAS && 0 <= i < NAREAS ==> K[NAREAS * j + i] == K[NAREAS * i + j]
    ensures forall j, i :: 0 <= j < NAREAS && 0 <= i < NAREAS ==> (Links(K, j, i) <==> Near(j, i))
    ensures forall j :: 0 <= j < NAREAS ==> Links(K, j, j)
  {
    forall j, i | 0 <= j < NAREAS && 0 <= i < NAREAS
      ensures K[NAREAS * j + i] == K[NAREAS * i + j]
      ensures Links(K, j, i) <==> Near(j, i)
    {
      KEntry(j, i);
      KEntry(i, j);
    }
    forall q | 0 <= q < |K|
      ensures K[q] == 0 || K[q] == 1
    {
      DivModBounds(q, NAREAS, NAREAS);
      KEntry(q / NAREAS, q % NAREAS);
    }
    forall j | 0 <= j < NAREAS
      ensures Links(K, j, j)
    {
      KEntry(j, j);
    }
  }

  /** Row j of K, as a slice. */
  lemma KRowSlice(j: int)
    requires 0 <= j < NAREAS
    ensures |K| == NAREAS * NAREAS
    ensures K[NAREAS * j .. NAREAS * j + NAREAS] == [KRow0, KRow1, KRow2, KRow3, KRow4, KRow5][j]
  {
    assert |K| == 36;
    if j == 0 { assert K[0..6] == KRow0; }
    else if j == 1 { assert K[6..12] == KRow1; }
    else if j == 2 { assert K[12..18] == KRow2; }
    else if j == 3 { assert K[18..24] == KRow3; }
    else if j == 4 { assert K[24..30] == KRow4; }
    else { assert K[30..36] == KRow5; }
  }

  /** Entry (j, i) of K is 1 exactly for neighbouring or equal areas, and 0 otherwise. */
  lemma KEntry(j: int, i: int)
    requires 0 <= j < NAREAS && 0 <= i < NAREAS
    ensures |K| == NAREAS * NAREAS && 0 <= NAREAS * j + i < |K|
    ensures K[NAREAS * j + i] == (if Near(j, i) then 1 else 0)
  {
    KRowSlice(j);
    assert K[NAREAS * j + i] == K[NAREAS * j .. NAREAS * j + NAREAS][i];
    if j == 0 { assert K[NAREAS * j + i] == KRow0[i]; }
    else if j == 1 { assert K[NAREAS * j + i] == KRow1[i]; }
    else if j == 2 { assert K[NAREAS * j + i] == KRow2[i]; }
    else if j == 3 { assert K[NAREAS * j + i] == KRow3[i]; }
    else if j == 4 { assert K[NAREAS * j + i] == KRow4[i]; }
    else { assert K[NAREAS * j + i] == KRow5[i]; }
  }

  /** l lists, in strictly ascending order, exactly the areas that project to area a in k (1-based numbers). */
  ghost predicate ListsSenders(k: seq<int>, l: seq<int>, a: int)
    requires |k| == NAREAS * NAREAS && 1 <= a <= NAREAS
  {
    && (forall b :: b in l <==> 1 <= b <= NAREAS && Links(k, b - 1, a - 1))
    && (forall s, t :: 0 <= s < t < |l| ==> l[s] < l[t])
  }

  /**
   * display_K, for connectivity matrix k: maps every area number 1..NAREAS to
   * the list of the area numbers it receives from, scanning the senders in
   * increasing order. The model's K is the matrix the simulator passes.
   */
  method DisplayK(k: seq<int>) returns (m: map<int, seq<int>>)
    requires |k| == NAREAS * NAREAS
    ensures forall a :: a in m <==> 1 <= a <= NAREAS
    ensures forall a :: a in m ==> ListsSenders(k, m[a], a)
  {
    m := map[];
    var i := 0;
    while i < NAREAS
      invariant 0 <= i <= NAREAS
      invariant forall a :: a in m <==> 1 <= a <= i
      invariant forall a :: a in m ==> ListsSenders(k, m[a], a)
    {
      var list: seq<int> := [];
      var j := 0;
      while j < NAREAS
        invariant 0 <= j <= NAREAS
        invariant forall b :: b in list <==> 1 <= b <= j && Links(k, b - 1, i)
        invariant forall s, t :: 0 <= s < t < |list| ==> list[s] < list[t]
        invariant forall t :: 0 <= t < |list| ==> list[t] <= j
      {
        if k[NAREAS * j + i] != 0 {
          list := list + [j + 1];
        }
        j := j + 1;
      }
      m := m[i + 1 := list];
      i := i + 1;
    }
  }

  /** Two strictly ascending lists with the same members are equal. */
  lemma {:induction false} AscendingUnique(l1: seq<int>, l2: seq<int>)
    requires forall s, t :: 0 <= s < t < |l1| ==> l1[s] < l1[t]
    requires forall s, t :: 0 <= s < t < |l2| ==> l2[s] < l2[t]
    requires forall b :: b in l1 <==> b in l2
    ensures l1 == l2
    decreases |l1|
  {
    if |l1| > 0 {
      assert l1[0] in l1;
    }
    if |l2| > 0 {
      assert l2[0] in l2;
    }
    if |l1| > 0 {
      assert |l2| > 0;
      HeadIsLeast(l1, l2);
      HeadIsLeast(l2, l1);
      forall b
        ensures b in l1[1..] <==> b in l2[1..]
      {
        TailMembers(l1, b);
        TailMembers(l2, b);
      }
      AscendingUnique(l1[1..], l2[1..]);
      assert l1 == [l1[0]] + l1[1..] && l2 == [l2[0]] + l2[1..];
    }
  }

  /** The head of an ascending list is at most every member of a list with the same members. */
  lemma HeadIsLeast(l1: seq<int>, l2: seq<int>)
    requires |l1| > 0 && |l2| > 0
    requires forall s, t :: 0 <= s < t < |l2| ==> l2[s] < l2[t]
    requires forall b :: b in l1 <==> b in l2
    ensures l2[0] <= l1[0]
  {
    assert l1[0] in l1;
    var t :| 0 <= t < |l2| && l2[t] == l1[0];
    if t > 0 {
      assert l2[0] < l2[t];
    }
  }

  /** In an ascending list, the tail holds exactly the members above the head. */
  lemma TailMembers(l: seq<int>, b: int)
    requires |l| > 0
    requires forall s, t :: 0 <= s < t < |l| ==> l[s] < l[t]
    ensures b in l[1..] <==> b in l && b != l[0]
  {
    if b in l && b != l[0] {
      var t :| 0 <= t < |l| && l[t] == b;
      assert l[1..][t - 1] == b;
    }
  }

  /** The chain's receiving lists: each area hears itself and its neighbours. */
  function ChainSenders(a: int): seq<int>
  {
    if a == 1 then [1, 2] else if a == NAREAS then [NAREAS - 1, NAREAS] else [a - 1, a, a + 1]
  }

  /**
   * What display_K gives for the network's K: the map
   * {1: [1, 2], 2: [1, 2, 3], 3: [2, 3, 4], 4: [3, 4, 5], 5: [4, 5, 6], 6: [5, 6]}.
   */
  lemma DisplayKValue(m: map<int, seq<int>>)
    requires |K| == NAREAS * NAREAS
    requires forall a :: a in m <==> 1 <= a <= NAREAS
    requires forall a :: a in m ==> ListsSenders(K, m[a], a)
    ensures m == map[1 := [1, 2], 2 := [1, 2, 3], 3 := [2, 3, 4], 4 := [3, 4, 5], 5 := [4, 5, 6], 6 := [5, 6]]
  {
    var want := map[1 := [1, 2], 2 := [1, 2, 3], 3 := [2, 3, 4], 4 := [3, 4, 5], 5 := [4, 5, 6], 6 := [5, 6]];
    forall a | a in m
      ensures m[a] == want[a]
    {
      ChainListsSenders(a);
      AscendingUnique(m[a], ChainSenders(a));
      assert want[a] == ChainSenders(a);
    }
    assert m.Keys == want.Keys;
  }

  /** ChainSenders(a) is the ascending list of the senders of area a in K. */
  lemma ChainListsSenders(a: int)
    requires 1 <= a <= NAREAS
    ensures |K| == NAREAS * NAREAS && ListsSenders(K, ChainSenders(a), a)
  {
    KEntry(0, 0);
    forall b | 1 <= b <= NAREAS
      ensures Links(K, b - 1, a - 1) <==> Near(b, a)
    {
      KEntry(b - 1, a - 1);
    }
    ChainMembers(a);
  }

  /** The members of ChainSenders(a) are the areas within one of a. */
  lemma ChainMembers(a: int)
    requires 1 <= a <= NAREAS
    ensures forall b :: b in ChainSenders(a) <==> 1 <= b <= NAREAS && Near(b, a)
    ensures forall s, t :: 0 <= s < t < |ChainSenders(a)| ==> ChainSenders(a)[s] < ChainSenders(a)[t]
  {
    assert NAREAS == 6;
  }

  /**
   * The network's buffers (server/models/standardNet6Areas.py). Binary
   * vectors are kept as reals, as numpy's zeros gives them.
   */
  datatype Net = Net(
    pot: seq<real>, rates: seq<real>, inh: seq<real>,
    avgPatts: seq<real>, caPatts: seq<real>, caOvlps: seq<real>, ovlps: seq<real>,
    slowinh: seq<real>, adapt: seq<real>, diluted: seq<real>,
    aboveThresh: seq<real>, aboveHstory: seq<real>,
    totLTP: seq<real>, totLTD: seq<real>,
    sensInput: seq<real>, motorInput: seq<real>, sensPatt: seq<real>, motorPatt: seq<real>,
    J: seq<real>, Jinh: seq<real>,
    linkffb: seq<real>, linkrec: seq<real>, linkinh: seq<real>, tempffb: seq<real>, clampSMIn: seq<real>,
    totalOutput: real)

  /** Every entry of v is 0. */
  predicate AllZero(v: seq<real>)
  {
    forall t :: 0 <= t < |v| ==> v[t] == 0.0
  }

  /** A zero vector of length n. */
  function Zero(n: nat): (v: seq<real>)
    ensures |v| == n && AllZero(v)
  {
    seq(n, t => 0.0)
  }

  /** Every buffer has the length main_init gives it. */
  predicate WellSized(net: Net)
  {
    && |net.pot| == NAREAS * N1 && |net.rates| == NAREAS * N1 && |net.inh| == NAREAS * N1
    && |net.avgPatts| == NAREAS * N1 * P && |net.caPatts| == NAREAS * N1 * P
    && |net.caOvlps| == NAREAS * P * P && |net.ovlps| == NAREAS * P
    && |net.slowinh| == NAREAS && |net.adapt| == NAREAS * N1 && |net.diluted| == NAREAS * N1
    && |net.aboveThresh| == NAREAS * N1 && |net.aboveHstory| == NAREAS * N1 * P
    && |net.totLTP| == NAREAS && |net.totLTD| == NAREAS
    && |net.sensInput| == NYAREAS * N1 && |net.motorInput| == NYAREAS * N1
    && |net.sensPatt| == NYAREAS * P * N1 && |net.motorPatt| == NYAREAS * P * N1
    && |net.J| == NAREAS * NAREAS * NSQR1 && |net.Jinh| == N1
    && |net.linkffb| == N1 && |net.linkrec| == N1 && |net.linkinh| == N1
    && |net.tempffb| == N1 && |net.clampSMIn| == N1
  }

  /** The activity part that resetNet silences is all zero. */
  predicate Silent(net: Net)
  {
    && AllZero(net.pot) && AllZero(net.inh) && AllZero(net.adapt) && AllZero(net.rates)
    && AllZero(net.slowinh) && AllZero(net.totLTP) && AllZero(net.totLTD) && AllZero(net.aboveHstory)
    && net.totalOutput == 0.0
  }

  /**
   * main_init: allocates every buffer, all zero, with its fixed length.
   * total_output keeps the class default 0.
   */
  function MainInit(): (net: Net)
    ensures WellSized(net) && Silent(net)
    ensures AllZero(net.J) && AllZero(net.Jinh) && AllZero(net.avgPatts) && AllZero(net.caPatts)
    ensures AllZero(net.sensPatt) && AllZero(net.motorPatt) && AllZero(net.aboveThresh)
  {
    Net(
      Zero(NAREAS * N1), Zero(NAREAS * N1), Zero(NAREAS * N1),
      Zero(NAREAS * N1 * P), Zero(NAREAS * N1 * P), Zero(NAREAS * P * P), Zero(NAREAS * P),
      Zero(NAREAS), Zero(NAREAS * N1), Zero(NAREAS * N1),
      Zero(NAREAS * N1), Zero(NAREAS * N1 * P),
      Zero(NAREAS), Zero(NAREAS),
      Zero(NYAREAS * N1), Zero(NYAREAS * N1), Zero(NYAREAS * P * N1), Zero(NYAREAS * P * N1),
      Zero(NAREAS * NAREAS * NSQR1), Zero(N1),
      Zero(N1), Zero(N1), Zero(N1), Zero(N1), Zero(N1),
      0.0)
  }

  /**
   * resetNet: zeroes the activity (potentials, inhibition, adaptation, rates,
   * slow inhibition, the LTP/LTD totals and the above-threshold history) and
   * total_output; the weights, patterns and averages are left as they are.
   */
  function ResetNet(net: Net): (r: Net)
    ensures Silent(r)
    ensures |r.pot| == NAREAS * N1 && |r.inh| == NAREAS * N1 && |r.adapt| == NAREAS * N1 && |r.rates| == NAREAS * N1
    ensures |r.slowinh| == NAREAS && |r.totLTP| == NAREAS && |r.totLTD| == NAREAS && |r.aboveHstory| == NAREAS * N1 * P
    ensures r.J == net.J && r.Jinh == net.Jinh && r.sensPatt == net.sensPatt && r.motorPatt == net.motorPatt
    ensures r.avgPatts == net.avgPatts && r.caPatts == net.caPatts && r.caOvlps == net.caOvlps
  {
    net.(pot := Zero(NAREAS * N1), inh := Zero(NAREAS * N1), adapt := Zero(NAREAS * N1), rates := Zero(NAREAS * N1),
         slowinh := Zero(NAREAS), totLTP := Zero(NAREAS), totLTD := Zero(NAREAS),
         aboveHstory := Zero(NAREAS * N1 * P), totalOutput := 0.0)
  }

  /** A zero vector is the only all-zero vector of its length. */
  lemma AllZeroIsZero(v: seq<real>)
    requires AllZero(v)
    ensures v == Zero(|v|)
  {
  }

  /**
   * resetNet keeps a well-sized network well sized, and on a network whose
   * activity is already silent it changes nothing: the reset is idempotent
   * and main_init's network is already reset.
   */
  lemma ResetNetFixpoints(net: Net)
    ensures WellSized(net) ==> WellSized(ResetNet(net))
    ensures WellSized(net) && Silent(net) ==> ResetNet(net) == net
    ensures ResetNet(ResetNet(net)) == ResetNet(net)
    ensures ResetNet(MainInit()) == MainInit()
  {
    if WellSized(net) && Silent(net) {
      AllZeroIsZero(net.pot);
      AllZeroIsZero(net.inh);
      AllZeroIsZero(net.adapt);
      AllZeroIsZero(net.rates);
      AllZeroIsZero(net.slowinh);
      AllZeroIsZero(net.totLTP);
      AllZeroIsZero(net.totLTD);
      AllZeroIsZero(net.aboveHstory);
    }
  }
}
