/**
 * The structural initialisation of standardNet6Areas.c: random binary input
 * patterns (gener_random_bin_patterns), Gaussian kernel banks
 * (init_gaussian_kernel), patchy random kernels (init_patchy_gauss_kern) and
 * the layout of the projection kernels inside the synapse array J.
 *
 * A kernel bank holds one mx*my kernel per cell of an nx*ny area, stored one
 * after the other; inside a kernel, entry (x, y) sits at y*mx + x.
 * The random streams are parameters: `random()` draws are naturals, the
 * uniform draws of bool_noise and equal_noise are reals in [0,1).
 */
module Kernels {
  import opened Params
  import opened Results
  import opened Sums
  import opened Vectors
  import opened Network

  // ---------------------------------------------------------------------
  // gener_random_bin_patterns (standardNet6Areas.c:510-532)

  /** The concatenation of a list of patterns (or kernel banks), the first one first. */
  function Join<T>(ps: seq<seq<T>>): seq<T>
  {
    if |ps| == 0 then [] else Join(ps[..|ps| - 1]) + ps[|ps| - 1]
  }

  /** Every pattern in the list has length n. */
  predicate AllLength<T>(ps: seq<seq<T>>, n: nat)
  {
    forall q :: 0 <= q < |ps| ==> |ps[q]| == n
  }

  /** Patterns of length n joined take n*|ps| entries. */
  lemma {:induction false} JoinLength<T>(ps: seq<seq<T>>, n: nat)
    requires AllLength(ps, n)
    ensures |Join(ps)| == n * |ps|
  {
    if |ps| > 0 {
      JoinLength(ps[..|ps| - 1], n);
    }
  }

  /** Pattern q of the joined list is the slice [n*q, n*q + n). */
  lemma {:induction false} JoinSlice<T>(ps: seq<seq<T>>, n: nat, q: nat)
    requires AllLength(ps, n) && q < |ps|
    ensures |Join(ps)| == n * |ps| && n * q + n <= n * |ps|
    ensures Join(ps)[n * q..n * q + n] == ps[q]
  {
    JoinLength(ps, n);
    MulMonotone(q + 1, |ps|, n);
    var init := ps[..|ps| - 1];
    JoinLength(init, n);
    if q < |ps| - 1 {
      JoinSlice(init, n, q);
      assert Join(ps) == Join(init) + ps[|ps| - 1];
      assert Join(ps)[n * q..n * q + n] == Join(init)[n * q..n * q + n];
    } else {
      assert n * q == |Join(init)|;
    }
  }

  /**
   * A pattern of length n that gener_random_bin_patterns may produce: binary,
   * with exactly nones ones (none when nones is not positive).
   */
  predicate GoodPattern(v: seq<int>, n: nat, nones: int)
  {
    |v| == n && IsBinary(v) && BSum(v) == (if nones < 0 then 0 else nones)
  }

  /** The ones a pattern asks for: nones, or none when nones is not positive. */
  function Wanted(nones: int): nat
  {
    if nones < 0 then 0 else nones
  }

  /**
   * A pattern of n zeros with a 1 set at draws[t] % n for every t in
   * [start, k): the pattern after the draws start..k-1 have been used.
   * With n == 0 there is no position to set.
   */
  function Marked(n: nat, draws: seq<nat>, start: nat, k: nat): (r: seq<int>)
    requires start <= k <= |draws|
    ensures |r| == n && IsBinary(r)
    decreases k - start
  {
    if k == start || n == 0 then BZeros(n)
    else Marked(n, draws, start, k - 1)[draws[k - 1] % n := 1]
  }

  /** Every draw used sets its cell: the position draws[t] % n of the marked pattern is 1. */
  lemma {:induction false} MarkedHasDraws(n: nat, draws: seq<nat>, start: nat, k: nat, t: nat)
    requires start <= t < k <= |draws| && n > 0
    ensures Marked(n, draws, start, k)[draws[t] % n] == 1
    decreases k - t
  {
    if t < k - 1 {
      MarkedHasDraws(n, draws, start, k - 1, t);
    }
  }

  /** Every 1 of the marked pattern comes from a draw in [start, k). */
  lemma {:induction false} MarkedOnlyDraws(n: nat, draws: seq<nat>, start: nat, k: nat, c: nat)
    requires start <= k <= |draws| && c < n && Marked(n, draws, start, k)[c] == 1
    ensures exists t :: start <= t < k && draws[t] % n == c
    decreases k - start
  {
    if k > start && draws[k - 1] % n != c {
      MarkedOnlyDraws(n, draws, start, k - 1, c);
    }
  }

  /** The ones of the marked pattern are exactly the positions of the draws in [start, k). */
  lemma MarkedExactly(n: nat, draws: seq<nat>, start: nat, k: nat)
    requires start <= k <= |draws|
    ensures forall c :: 0 <= c < n && Marked(n, draws, start, k)[c] == 1 ==>
      exists t :: start <= t < k && draws[t] % n == c
    ensures n > 0 ==> forall t :: start <= t < k ==> Marked(n, draws, start, k)[draws[t] % n] == 1
  {
    forall c | 0 <= c < n && Marked(n, draws, start, k)[c] == 1
      ensures exists t :: start <= t < k && draws[t] % n == c
    {
      MarkedOnlyDraws(n, draws, start, k, c);
    }
    forall t | start <= t < k && n > 0
      ensures Marked(n, draws, start, k)[draws[t] % n] == 1
    {
      MarkedHasDraws(n, draws, start, k, t);
    }
  }

  /**
   * The pattern loop of gener_random_bin_patterns stops at `stop`: it has
   * used at least nones draws, the marked pattern holds exactly the wanted
   * number of ones, and it held fewer at every earlier point after the
   * first nones draws.
   */
  predicate StopsAt(n: nat, nones: int, draws: seq<nat>, start: nat, stop: nat)
  {
    start + Wanted(nones) <= stop <= |draws| &&
    BSum(Marked(n, draws, start, stop)) == Wanted(nones) &&
    forall k :: start + Wanted(nones) <= k < stop ==> BSum(Marked(n, draws, start, k)) < nones
  }

  /**
   * One pattern: sets nones positions drawn as random() % n to 1, then keeps
   * drawing until the pattern holds nones ones. `None` when the draws run out
   * first (the source would keep drawing; with nones > n it never stops).
   */
  method OnePattern(n: nat, nones: int, draws: seq<nat>, start: nat) returns (res: Option<seq<int>>, next: nat)
    requires nones > 0 ==> n > 0
    requires start <= |draws|
    ensures start <= next <= |draws|
    ensures res.None? ==> next == |draws|
    ensures res.None? ==> forall k :: start + Wanted(nones) <= k <= |draws| ==> BSum(Marked(n, draws, start, k)) < nones
    ensures res.Some? ==> GoodPattern(res.value, n, nones)
    ensures res.Some? ==> res.value == Marked(n, draws, start, next) && StopsAt(n, nones, draws, start, next)
    ensures res.Some? ==> forall c :: 0 <= c < n && res.value[c] == 1 ==>
      exists t :: start <= t < next && draws[t] % n == c
    ensures res.Some? && n > 0 ==> forall t :: start <= t < next ==> res.value[draws[t] % n] == 1
  {
    if start + Wanted(nones) > |draws| {
      return None, |draws|;
    }
    var pat := MarkFirst(n, nones, draws, start);
    res, next := MarkRest(n, nones, draws, start, pat);
    if res.Some? {
      MarkedExactly(n, draws, start, next);
    }
  }

  /** The first loop of a pattern: nones draws from start, each setting its cell. */
  method MarkFirst(n: nat, nones: int, draws: seq<nat>, start: nat) returns (pat: seq<int>)
    requires nones > 0 ==> n > 0
    requires start + Wanted(nones) <= |draws|
    ensures pat == Marked(n, draws, start, start + Wanted(nones))
    ensures BSum(pat) <= Wanted(nones)
  {
    pat := BZeros(n);
    BSumZeros(n);
    var i := 0;
    while i < nones
      invariant 0 <= i <= Wanted(nones) && BSum(pat) <= i
      invariant pat == Marked(n, draws, start, start + i)
    {
      BSumUpdate(pat, draws[start + i] % n, 1);
      pat := pat[draws[start + i] % n := 1];
      i := i + 1;
    }
  }

  /** The second loop of a pattern: keeps drawing from start + nones until the pattern holds nones ones. */
  method MarkRest(n: nat, nones: int, draws: seq<nat>, start: nat, first: seq<int>)
    returns (res: Option<seq<int>>, next: nat)
    requires nones > 0 ==> n > 0
    requires start + Wanted(nones) <= |draws|
    requires first == Marked(n, draws, start, start + Wanted(nones)) && BSum(first) <= Wanted(nones)
    ensures start + Wanted(nones) <= next <= |draws|
    ensures res.None? ==> next == |draws|
    ensures res.None? ==> forall k :: start + Wanted(nones) <= k <= |draws| ==> BSum(Marked(n, draws, start, k)) < nones
    ensures res.Some? ==> res.value == Marked(n, draws, start, next) && StopsAt(n, nones, draws, start, next)
    ensures res.Some? ==> GoodPattern(res.value, n, nones)
  {
    var pat := first;
    next := start + Wanted(nones);
    BSumCountsOnes(pat);
    while BSum(pat) < nones
      invariant start + Wanted(nones) <= next <= |draws|
      invariant pat == Marked(n, draws, start, next) && 0 <= BSum(pat) <= Wanted(nones)
      invariant forall k :: start + Wanted(nones) <= k < next ==> BSum(Marked(n, draws, start, k)) < nones
      decreases |draws| - next
    {
      if next == |draws| {
        return None, next;
      }
      BSumUpdate(pat, draws[next] % n, 1);
      pat := pat[draws[next] % n := 1];
      next := next + 1;
      assert pat == Marked(n, draws, start, next);
      BSumCountsOnes(pat);
    }
    res := Some(pat);
  }

  /** Where pattern q's draws begin: where pattern q-1's loop stopped, or 0. */
  function StartOfPattern(ends: seq<nat>, q: nat): nat
    requires q <= |ends|
  {
    if q == 0 then 0 else ends[q - 1]
  }

  /** Pattern q is the one marked by the draws from its start to `ends[q]`, where its loop stops. */
  predicate DrawnFrom(n: nat, nones: int, draws: seq<nat>, ends: seq<nat>, patterns: seq<seq<int>>, q: nat)
    requires q < |ends| && q < |patterns|
  {
    StartOfPattern(ends, q) <= ends[q] <= |draws| &&
    patterns[q] == Marked(n, draws, StartOfPattern(ends, q), ends[q]) &&
    StopsAt(n, nones, draws, StartOfPattern(ends, q), ends[q])
  }

  /** Appending a pattern and its end keeps the earlier patterns' windows. */
  lemma DrawnFromExtend(n: nat, nones: int, draws: seq<nat>, ends: seq<nat>, patterns: seq<seq<int>>,
                        stop: nat, v: seq<int>)
    requires |ends| == |patterns|
    requires forall q :: 0 <= q < |ends| ==> DrawnFrom(n, nones, draws, ends, patterns, q)
    requires StartOfPattern(ends, |ends|) <= stop <= |draws|
    requires v == Marked(n, draws, StartOfPattern(ends, |ends|), stop)
    requires StopsAt(n, nones, draws, StartOfPattern(ends, |ends|), stop)
    ensures forall q :: 0 <= q <= |ends| ==> DrawnFrom(n, nones, draws, ends + [stop], patterns + [v], q)
  {
    forall q | 0 <= q <= |ends|
      ensures DrawnFrom(n, nones, draws, ends + [stop], patterns + [v], q)
    {
      assert StartOfPattern(ends + [stop], q) == StartOfPattern(ends, q);
      if q < |ends| {
        assert DrawnFrom(n, nones, draws, ends, patterns, q);
      }
    }
  }

  /**
   * gener_random_bin_patterns: clears the first n*p entries of pats and fills
   * them with p patterns of length n, each with exactly nones ones, reading
   * the random() stream in order. Entries from n*p on are untouched. `None`
   * when the draws run out, which with nones > n is certain. Pattern q is
   * the one marked by the draws from `ends[q-1]` (0 for the first) up to
   * `ends[q]`, where its loop stops.
   */
  method GenerRandomBinPatterns(n: nat, nones: int, p: nat, pats: seq<int>, draws: seq<nat>)
    returns (r: Option<seq<int>>, patterns: seq<seq<int>>, ends: seq<nat>, used: nat)
    requires n * p <= |pats|
    requires p > 0 && nones > 0 ==> n > 0
    ensures used <= |draws|
    ensures r.None? ==> used == |draws|
    ensures r.Some? ==> |patterns| == p && forall q :: 0 <= q < p ==> GoodPattern(patterns[q], n, nones)
    ensures r.Some? ==> r.value == Join(patterns) + pats[n * p..]
    ensures r.Some? ==> |r.value| == |pats| && r.value[n * p..] == pats[n * p..]
    ensures r.Some? ==> |ends| == p && used == StartOfPattern(ends, p)
    ensures r.Some? ==> forall q :: 0 <= q < p ==> DrawnFrom(n, nones, draws, ends, patterns, q)
    ensures p > 0 && nones > n ==> r.None?
  {
    patterns := [];
    ends := [];
    used := 0;
    var j := 0;
    while j < p
      invariant 0 <= j <= p && |patterns| == j && |ends| == j && used <= |draws|
      invariant forall q :: 0 <= q < j ==> GoodPattern(patterns[q], n, nones)
      invariant used == StartOfPattern(ends, j)
      invariant forall q :: 0 <= q < j ==> DrawnFrom(n, nones, draws, ends, patterns, q)
      invariant nones > n ==> j == 0
    {
      var res, stop := OnePattern(n, nones, draws, used);
      if res.None? {
        return None, patterns, ends, stop;
      }
      if nones > n {
        BSumCountsOnes(res.value);
      }
      DrawnFromExtend(n, nones, draws, ends, patterns, stop, res.value);
      patterns := patterns + [res.value];
      ends := ends + [stop];
      used := stop;
      j := j + 1;
    }
    assert AllLength(patterns, n);
    JoinLength(patterns, n);
    r := Some(Join(patterns) + pats[n * p..]);
  }

  /** Pattern q of a successful run is the slice [n*q, n*q + n) of the result, and is good. */
  lemma PatternAt(r: seq<int>, patterns: seq<seq<int>>, n: nat, nones: int, p: nat, pats: seq<int>, q: nat)
    requires n * p <= |pats| && |patterns| == p && q < p
    requires forall q' :: 0 <= q' < p ==> GoodPattern(patterns[q'], n, nones)
    requires r == Join(patterns) + pats[n * p..]
    ensures |r| == |pats| && n * q + n <= n * p
    ensures GoodPattern(r[n * q..n * q + n], n, nones)
  {
    JoinLength(patterns, n);
    assert AllLength(patterns, n);
    JoinSlice(patterns, n, q);
    assert r[n * q..n * q + n] == Join(patterns)[n * q..n * q + n];
  }

  // ---------------------------------------------------------------------
  // init_gaussian_kernel (standardNet6Areas.c:540-569)

  /** The number of kernels written: nx*ny, but kernel 0 is set up even for an empty area. */
  function KernelSpan(nx: nat, ny: nat): (r: nat)
    ensures r >= 1 && r >= nx * ny
    ensures nx * ny > 0 ==> r == nx * ny
  {
    if nx * ny == 0 then 1 else nx * ny
  }

  /**
   * The exponent -h of the Gaussian at kernel position (x, y), with
   * h = (x-cx)^2/sigmax^2 + (y-cy)^2/sigmay^2 around the centre (cx, cy) = (mx/2, my/2).
   */
  function GaussExponent(mx: nat, my: nat, sigmax: real, sigmay: real, x: int, y: int): real
    requires sigmax != 0.0 && sigmay != 0.0
  {
    var dx := (x - mx / 2) as real;
    var dy := (y - my / 2) as real;
    -(dx * dx * (1.0 / (sigmax * sigmax)) + dy * dy * (1.0 / (sigmay * sigmay)))
  }

  /** The Gaussian profile at kernel position (x, y): ampl*exp(-h). */
  function GaussAt(mx: nat, my: nat, sigmax: real, sigmay: real, ampl: real, e: real -> real, x: int, y: int): real
    requires sigmax != 0.0 && sigmay != 0.0
  {
    ampl * e(GaussExponent(mx, my, sigmax, sigmay, x, y))
  }

  /**
   * init_gaussian_kernel: kernel 0 gets the Gaussian profile, and the kernels
   * 1..nx*ny-1 are copies of it; the rest of J is untouched.
   */
  function GaussianKernel(nx: nat, ny: nat, mx: nat, my: nat, J: seq<real>,
                          sigmax: real, sigmay: real, ampl: real, e: real -> real): (r: seq<real>)
    requires sigmax != 0.0 && sigmay != 0.0
    requires KernelSpan(nx, ny) * (mx * my) <= |J|
    ensures |r| == |J|
    ensures forall t :: KernelSpan(nx, ny) * (mx * my) <= t < |J| ==> r[t] == J[t]
  {
    var written := KernelSpan(nx, ny) * (mx * my);
    seq(|J|, t requires 0 <= t < |J| =>
      if mx > 0 && my > 0 && t < written then ProfileAt(mx, my, sigmax, sigmay, ampl, e, t)
      else J[t])
  }

  /** The profile value stored at flat position t of any kernel bank (t taken modulo the kernel size). */
  function ProfileAt(mx: nat, my: nat, sigmax: real, sigmay: real, ampl: real, e: real -> real, t: nat): real
    requires sigmax != 0.0 && sigmay != 0.0 && mx > 0 && my > 0
  {
    GaussAt(mx, my, sigmax, sigmay, ampl, e, (t % (mx * my)) % mx, (t % (mx * my)) / mx)
  }

  /** Every kernel of the bank is a copy of kernel 0. */
  lemma GaussianCopies(nx: nat, ny: nat, mx: nat, my: nat, J: seq<real>,
                       sigmax: real, sigmay: real, ampl: real, e: real -> real, t: nat)
    requires sigmax != 0.0 && sigmay != 0.0
    requires KernelSpan(nx, ny) * (mx * my) <= |J|
    requires mx * my <= t < KernelSpan(nx, ny) * (mx * my)
    ensures 0 <= t % (mx * my) < t
    ensures GaussianKernel(nx, ny, mx, my, J, sigmax, sigmay, ampl, e)[t]
         == GaussianKernel(nx, ny, mx, my, J, sigmax, sigmay, ampl, e)[t % (mx * my)]
  {
    assert mx > 0 && my > 0;
    ProfileMod(mx, my, sigmax, sigmay, ampl, e, t);
  }

  /** The profile at flat position t depends only on t modulo the kernel size. */
  lemma ProfileMod(mx: nat, my: nat, sigmax: real, sigmay: real, ampl: real, e: real -> real, t: nat)
    requires sigmax != 0.0 && sigmay != 0.0 && mx > 0 && my > 0
    ensures mx * my > 0 && 0 <= t % (mx * my) <= t
    ensures ProfileAt(mx, my, sigmax, sigmay, ampl, e, t % (mx * my)) == ProfileAt(mx, my, sigmax, sigmay, ampl, e, t)
  {
    var mm := mx * my;
    MulMonotone(1, my, mx);
    assert mm > 0;
    DivModUnique(t % mm, mm, 0, t % mm);
  }

  /** Entry (x, y) of kernel i is the Gaussian profile at (x, y). */
  lemma GaussianEntry(nx: nat, ny: nat, mx: nat, my: nat, J: seq<real>,
                      sigmax: real, sigmay: real, ampl: real, e: real -> real, i: nat, x: nat, y: nat)
    requires sigmax != 0.0 && sigmay != 0.0
    requires KernelSpan(nx, ny) * (mx * my) <= |J|
    requires i < KernelSpan(nx, ny) && x < mx && y < my
    ensures 0 <= i * (mx * my) + y * mx + x < KernelSpan(nx, ny) * (mx * my)
    ensures GaussianKernel(nx, ny, mx, my, J, sigmax, sigmay, ampl, e)[i * (mx * my) + y * mx + x]
         == GaussAt(mx, my, sigmax, sigmay, ampl, e, x, y)
  {
    var mm := mx * my;
    var t := i * mm + y * mx + x;
    MulMonotone(y + 1, my, mx);
    assert y * mx + x < mm;
    MulMonotone(i + 1, KernelSpan(nx, ny), mm);
    DivModUnique(t, mm, i, y * mx + x);
    DivModUnique(y * mx + x, mx, y, x);
  }

  /** With exp(0) = 1, the centre of every kernel holds ampl. */
  lemma GaussianCenter(mx: nat, my: nat, sigmax: real, sigmay: real, ampl: real, e: real -> real)
    requires sigmax != 0.0 && sigmay != 0.0 && e(0.0) == 1.0
    ensures GaussAt(mx, my, sigmax, sigmay, ampl, e, mx / 2, my / 2) == ampl
  {
    assert GaussExponent(mx, my, sigmax, sigmay, mx / 2, my / 2) == 0.0;
  }

  /** For odd sizes the profile is symmetric: mirroring x or y about the centre keeps the value. */
  lemma GaussianMirror(mx: nat, my: nat, sigmax: real, sigmay: real, ampl: real, e: real -> real, x: int, y: int)
    requires sigmax != 0.0 && sigmay != 0.0
    requires mx % 2 == 1 && my % 2 == 1
    ensures GaussAt(mx, my, sigmax, sigmay, ampl, e, mx - 1 - x, y) == GaussAt(mx, my, sigmax, sigmay, ampl, e, x, y)
    ensures GaussAt(mx, my, sigmax, sigmay, ampl, e, x, my - 1 - y) == GaussAt(mx, my, sigmax, sigmay, ampl, e, x, y)
  {
    assert mx == 2 * (mx / 2) + 1 && my == 2 * (my / 2) + 1;
    var dx := (x - mx / 2) as real;
    var dy := (y - my / 2) as real;
    assert ((mx - 1 - x) - mx / 2) as real == -dx;
    assert ((my - 1 - y) - my / 2) as real == -dy;
    assert (-dx) * (-dx) == dx * dx;
    assert (-dy) * (-dy) == dy * dy;
    assert GaussExponent(mx, my, sigmax, sigmay, mx - 1 - x, y) == GaussExponent(mx, my, sigmax, sigmay, x, y);
    assert GaussExponent(mx, my, sigmax, sigmay, x, my - 1 - y) == GaussExponent(mx, my, sigmax, sigmay, x, y);
  }

  // ---------------------------------------------------------------------
  // init_patchy_gauss_kern (standardNet6Areas.c:580-603)

  /** Every draw lies in [0,1). */
  predicate UnitDraws(d: seq<real>)
  {
    forall t :: 0 <= t < |d| ==> 0.0 <= d[t] < 1.0
  }

  /**
   * init_patchy_gauss_kern: refuses a probability outside [0,1] (the source
   * exits). Otherwise it lays down the Gaussian probabilities with amplitude
   * prob, then turns each of the nx*ny*mx*my entries into upper*value when
   * its Bernoulli draw succeeds and into NO_SYNAPSE when it fails. Entry t
   * uses noise[t] for bool_noise and values[t] for equal_noise.
   */
  function PatchyGaussKern(nx: nat, ny: nat, mx: nat, my: nat, J: seq<real>,
                           sigmax: real, sigmay: real, prob: real, upper: real, e: real -> real,
                           noise: seq<real>, values: seq<real>): (r: Result<seq<real>, string>)
    requires sigmax != 0.0 && sigmay != 0.0
    requires KernelSpan(nx, ny) * (mx * my) <= |J|
    requires nx * ny * (mx * my) <= |noise| && nx * ny * (mx * my) <= |values|
    requires UnitDraws(noise) && UnitDraws(values)
    ensures r.Failure? <==> prob < 0.0 || prob > 1.0
    ensures r.Success? ==> |r.value| == |J|
    ensures r.Success? && upper >= 0.0 ==>
      forall t :: 0 <= t < nx * ny * (mx * my) ==> 0.0 <= r.value[t] && (r.value[t] == NO_SYNAPSE || r.value[t] < upper)
    ensures r.Success? ==> forall t :: KernelSpan(nx, ny) * (mx * my) <= t < |J| ==> r.value[t] == J[t]
  {
    if prob < 0.0 || prob > 1.0 then Failure("init_<..>_kernel() probab. not in [0,1]")
    else
      var g := GaussianKernel(nx, ny, mx, my, J, sigmax, sigmay, prob, e);
      var cells := nx * ny * (mx * my);
      MulMonotone(nx * ny, KernelSpan(nx, ny), mx * my);
      Success(seq(|J|, t requires 0 <= t < |J| =>
        if t < cells then SynapseOrNone(g[t], noise[t], values[t], upper) else g[t]))
  }

  /**
   * One entry of a patchy kernel: upper*value when the Bernoulli draw with
   * probability p succeeds, NO_SYNAPSE otherwise.
   */
  function SynapseOrNone(p: real, noise: real, value: real, upper: real): (r: real)
    requires 0.0 <= noise < 1.0 && 0.0 <= value < 1.0
    ensures r != NO_SYNAPSE ==> noise <= p
    ensures upper >= 0.0 ==> 0.0 <= r && (r == NO_SYNAPSE || r < upper)
  {
    if BoolNoise(p, noise) then Scaled(upper, value) else NO_SYNAPSE
  }

  /** upper*equal_noise(): a draw in [0,1) scaled by a positive bound lies in [0, bound). */
  function Scaled(upper: real, value: real): (r: real)
    requires 0.0 <= value < 1.0
    ensures upper == 0.0 ==> r == 0.0
    ensures upper > 0.0 ==> 0.0 <= r < upper
  {
    assert upper > 0.0 ==> upper * value < upper * 1.0;
    upper * value
  }

  /**
   * Entry (x, y) of kernel i holds a synapse worth upper*values[t] exactly
   * when the noise draw does not exceed the Gaussian probability there, and
   * NO_SYNAPSE otherwise.
   */
  lemma PatchyEntry(nx: nat, ny: nat, mx: nat, my: nat, J: seq<real>,
                    sigmax: real, sigmay: real, prob: real, upper: real, e: real -> real,
                    noise: seq<real>, values: seq<real>, i: nat, x: nat, y: nat)
    requires sigmax != 0.0 && sigmay != 0.0
    requires KernelSpan(nx, ny) * (mx * my) <= |J|
    requires nx * ny * (mx * my) <= |noise| && nx * ny * (mx * my) <= |values|
    requires UnitDraws(noise) && UnitDraws(values)
    requires 0.0 <= prob <= 1.0
    requires i < nx * ny && x < mx && y < my
    ensures 0 <= i * (mx * my) + y * mx + x < nx * ny * (mx * my)
    ensures PatchyGaussKern(nx, ny, mx, my, J, sigmax, sigmay, prob, upper, e, noise, values).Success?
    ensures PatchyGaussKern(nx, ny, mx, my, J, sigmax, sigmay, prob, upper, e, noise, values).value[i * (mx * my) + y * mx + x]
         == if noise[i * (mx * my) + y * mx + x] <= GaussAt(mx, my, sigmax, sigmay, prob, e, x, y)
            then Scaled(upper, values[i * (mx * my) + y * mx + x]) else NO_SYNAPSE
  {
    GaussianEntry(nx, ny, mx, my, J, sigmax, sigmay, prob, e, i, x, y);
    MulMonotone(i + 1, nx * ny, mx * my);
  }

  /** With probability 1 at the centre, every kernel's central synapse exists. */
  lemma PatchyCenterPresent(nx: nat, ny: nat, mx: nat, my: nat, J: seq<real>,
                            sigmax: real, sigmay: real, upper: real, e: real -> real,
                            noise: seq<real>, values: seq<real>, i: nat)
    requires sigmax != 0.0 && sigmay != 0.0 && e(0.0) == 1.0
    requires KernelSpan(nx, ny) * (mx * my) <= |J|
    requires nx * ny * (mx * my) <= |noise| && nx * ny * (mx * my) <= |values|
    requires UnitDraws(noise) && UnitDraws(values)
    requires i < nx * ny && mx > 0 && my > 0
    ensures 0 <= i * (mx * my) + (my / 2) * mx + mx / 2 < nx * ny * (mx * my)
    ensures PatchyGaussKern(nx, ny, mx, my, J, sigmax, sigmay, 1.0, upper, e, noise, values).Success?
    ensures PatchyGaussKern(nx, ny, mx, my, J, sigmax, sigmay, 1.0, upper, e, noise, values).value[i * (mx * my) + (my / 2) * mx + mx / 2]
         == Scaled(upper, values[i * (mx * my) + (my / 2) * mx + mx / 2])
  {
    PatchyEntry(nx, ny, mx, my, J, sigmax, sigmay, 1.0, upper, e, noise, values, i, mx / 2, my / 2);
    GaussianCenter(mx, my, sigmax, sigmay, 1.0, e);
  }

  // ---------------------------------------------------------------------
  // The projection kernels inside J (standardNet6Areas.c:881-901, 1255, 1273, 1366-1374)

  /** Which kernels a projection from area j+1 to area i+1 gets at initialisation. */
  datatype Projection = Recurrent | Between | Absent

  /**
   * The kernel-initialisation choice: a recurrent kernel when j == i and the
   * diagonal of k is set, a between-area kernel when k[NAREAS*j+i] is set
   * otherwise, and none else.
   */
  function ProjectionOf(k: seq<int>, j: nat, i: nat): (r: Projection)
    requires |k| == NAREAS * NAREAS && j < NAREAS && i < NAREAS
    ensures r == Recurrent <==> j == i && Links(k, j, i)
    ensures r == Between <==> j != i && Links(k, j, i)
    ensures r == Absent <==> !Links(k, j, i)
  {
    if j == i && k[(NAREAS + 1) * j] != 0 then Recurrent
    else if k[NAREAS * j + i] != 0 then Between
    else Absent
  }

  /** In the network's K every area is recurrent and the neighbouring areas are linked both ways. */
  lemma KProjections(j: nat, i: nat)
    requires j < NAREAS && i < NAREAS
    ensures |K| == NAREAS * NAREAS
    ensures ProjectionOf(K, j, i) == Recurrent <==> j == i
    ensures ProjectionOf(K, j, i) == Between <==> j == i + 1 || i == j + 1
  {
    KShape();
  }

  /** The start of the kernel bank of the projection from area j+1 to area i+1 inside J. */
  function ProjectionOffset(j: nat, i: nat): (r: nat)
    requires j < NAREAS && i < NAREAS
    ensures r + NSQR1 <= NAREAS * NAREAS * NSQR1
  {
    assert NAREAS * j + i < NAREAS * NAREAS;
    MulMonotone(NAREAS * j + i + 1, NAREAS * NAREAS, NSQR1);
    NSQR1 * (NAREAS * j + i)
  }

  /** The recurrent address NSQR1*(NAREAS+1)*a of the step and learning code is the bank of (a, a). */
  lemma RecurrentOffset(a: nat)
    requires a < NAREAS
    ensures NSQR1 * (NAREAS + 1) * a == ProjectionOffset(a, a)
    ensures (NAREAS + 1) * a == NAREAS * a + a
  {
  }

  /** A bank of N1 kernels of either excitatory size fits in its NSQR1 slot. */
  lemma KernelBankFits()
    ensures N11 * N12 * (NREC1 * NREC2) <= NSQR1
    ensures N11 * N12 * (NFFB1 * NFFB2) <= NSQR1
    ensures KernelSpan(N11, N12) == N1
  {
  }

  /** Different projections own disjoint slots of J. */
  lemma ProjectionsDisjoint(j: nat, i: nat, j': nat, i': nat)
    requires j < NAREAS && i < NAREAS && j' < NAREAS && i' < NAREAS
    requires (j, i) != (j', i')
    ensures ProjectionOffset(j, i) + NSQR1 <= ProjectionOffset(j', i') || ProjectionOffset(j', i') + NSQR1 <= ProjectionOffset(j, i)
  {
    var s := NAREAS * j + i;
    var s' := NAREAS * j' + i';
    assert s != s';
    if s < s' {
      SlotsDisjoint(s, s', NSQR1);
    } else {
      SlotsDisjoint(s', s, NSQR1);
    }
  }

  /** Slots of width w at different slot numbers do not overlap. */
  lemma SlotsDisjoint(s: nat, s': nat, w: nat)
    requires s < s'
    ensures w * s + w <= w * s'
  {
    assert w * s' - w * s == w * (s' - s);
    MulMonotone(1, s' - s, w);
  }
}
