/**
 * The Felix remote-control loop: a message-driven state machine over the
 * flags `running`, `do_steps` and `init_flag`, the step counter, the
 * model's switch and slider arrays, the save mode and the select timer.
 * Each command byte is a pure state transition; the timeout branch of the
 * main loop is a separate transition that reports which simulator routine
 * it would call. Simulator routines, sockets and printing are left out.
 */
module GenSim {
  import opened Results
  import opened TextScan
  import opened Sums

  /** Largest timer interval accepted, in seconds (ten minutes). */
  const TIMER_LIMIT: real := 600.0
  const MICROS: int := 1000000

  /** The `select` timeout: whole seconds, microseconds, and the microseconds actually used (`stimer`). */
  datatype Timer = Timer(secs: int, usecs: int, stimer: int)

  /**
   * The controller's state. `switches[i]` and `sliders[i]` are the integers
   * the model registered as switch `i` and slider `i`; `quit` records that
   * the process exited.
   */
  datatype Felix = Felix(running: bool, doSteps: int, initFlag: bool, currentStep: int,
                         switches: seq<int>, sliders: seq<int>, saving: bool,
                         timer: Timer, quit: bool)

  /** Which simulator routine one timeout of the main loop calls. */
  datatype Action = Init | Step | Idle

  predicate TimerValid(t: Timer) {
    0 <= t.secs <= 600 && 0 <= t.usecs < MICROS
  }

  /**
   * What every reachable controller state satisfies: a sane timer. The step
   * budget is not part of it, because the as-written "n" command can store
   * a negative count (see `HandleStepsAsWritten`).
   */
  predicate FelixInvariant(s: Felix) {
    TimerValid(s.timer)
  }

  /** No negative step budget: what the corrected "n" command keeps. */
  predicate BudgetSane(s: Felix) {
    s.doSteps >= 0
  }

  /** The socket branch's start: stopped, nothing pending, saving off, 0.4 s timer. */
  function InitialFelix(switches: seq<int>, sliders: seq<int>, stimer: int): (s: Felix)
    ensures FelixInvariant(s) && BudgetSane(s) && !s.running && !s.initFlag && s.doSteps == 0
  {
    Felix(false, 0, false, 0, switches, sliders, false, Timer(0, 400000, stimer), false)
  }

  /**
   * `handle_steps` as written: the `long` from `strtol` is cleared on a
   * range error or when negative, then returned through an `int`, which
   * wraps values above INT_MAX.
   */
  function HandleStepsAsWritten(msg: string): (n: int)
    requires |msg| >= 1
    ensures INT_MIN <= n <= INT_MAX
    ensures Strtol(msg[1..]).value <= INT_MAX ==> n >= 0
  {
    var c := Strtol(msg[1..]);
    var m := if c.outOfRange then 0 else c.value;
    Int32(if m < 0 then 0 else m)
  }

  /** The request "n3000000000" makes the as-written handler return a negative step count. */
  lemma StepsAsWrittenGoNegative(k: int)
    requires k == 3000000000
    ensures HandleStepsAsWritten("n" + FormatInt(k)) == -1294967296
  {
    var msg := "n" + FormatInt(k);
    assert msg[1..] == FormatInt(k) + [];
    StrtolFormatted(k, []);
    assert Strtol(msg[1..]) == Conversion(k, false);
    DivModUnique(k - INT_MIN, 0x1_0000_0000, 1, 852516352);
  }

  /** The request "n5000000000" makes the as-written handler return 705032704, a positive count unrelated to the request. */
  lemma StepsAsWrittenWrapPositive(k: int)
    requires k == 5000000000
    ensures HandleStepsAsWritten("n" + FormatInt(k)) == 705032704
  {
    var msg := "n" + FormatInt(k);
    assert msg[1..] == FormatInt(k) + [];
    StrtolFormatted(k, []);
    assert Strtol(msg[1..]) == Conversion(k, false);
    DivModUnique(k - INT_MIN, 0x1_0000_0000, 1, 2852516352);
  }

  /**
   * `handle_steps` as intended: a count that does not fit an `int` is
   * treated like any other range error and yields 0, so the result is
   * never negative.
   */
  function HandleSteps(msg: string): (n: int)
    requires |msg| >= 1
    ensures 0 <= n <= INT_MAX
    ensures 0 <= Strtol(msg[1..]).value <= INT_MAX ==> n == HandleStepsAsWritten(msg)
  {
    var c := Strtol(msg[1..]);
    if c.outOfRange || c.value < 0 || c.value > INT_MAX then 0 else c.value
  }

  /** "n" followed by a count in `[0, INT_MAX]` requests exactly that many steps; junk requests none. */
  lemma StepsRoundTrip(k: int, junk: string)
    requires 0 <= k <= INT_MAX
    requires forall i :: 0 <= i < |junk| ==> !IsDigit(junk[i])
    ensures HandleSteps("n" + FormatInt(k)) == k
    ensures HandleStepsAsWritten("n" + FormatInt(k)) == k
    ensures HandleSteps("n" + junk) == 0
  {
    var msg := "n" + FormatInt(k);
    assert msg[1..] == FormatInt(k) + [];
    StrtolFormatted(k, []);
    assert ("n" + junk)[1..] == junk;
    NoDigitNoNumber(junk);
  }

  /** `handle_set_switch`: "B n v" sets switch `n` to 1 when `v` is nonzero, else 0; malformed or out-of-range requests are ignored. */
  function HandleSetSwitch(switches: seq<int>, msg: string): (r: seq<int>)
    requires |msg| >= 1
    ensures |r| == |switches|
    ensures forall i :: 0 <= i < |r| && r[i] != switches[i] ==> r[i] == 0 || r[i] == 1
    ensures ScanTwoInts(msg[1..]).None? ==> r == switches
  {
    match ScanTwoInts(msg[1..])
    case None => switches
    case Some((n, v)) =>
      if n < 0 || n >= |switches| then switches
      else switches[n := if v != 0 then 1 else 0]
  }

  /** The command a client builds from two integers, e.g. "B3 1". */
  function Command(c: char, n: int, v: int): (msg: string)
    ensures |msg| >= 1 && msg[0] == c
  {
    [c] + FormatInt(n) + " " + FormatInt(v)
  }

  lemma CommandArguments(c: char, n: int, v: int)
    requires INT_MIN <= n <= INT_MAX && INT_MIN <= v <= INT_MAX
    ensures ScanTwoInts(Command(c, n, v)[1..]) == Some((n, v))
  {
    assert Command(c, n, v)[1..] == FormatInt(n) + " " + FormatInt(v);
    ScanTwoFormatted(n, v);
  }

  /** A well-formed switch command changes exactly the named switch, and only when the index is in range. */
  lemma SwitchCommand(switches: seq<int>, n: int, v: int)
    requires INT_MIN <= n <= INT_MAX && INT_MIN <= v <= INT_MAX
    ensures 0 <= n < |switches| ==>
      HandleSetSwitch(switches, Command('B', n, v)) == switches[n := if v != 0 then 1 else 0]
    ensures !(0 <= n < |switches|) ==> HandleSetSwitch(switches, Command('B', n, v)) == switches
  {
    CommandArguments('B', n, v);
  }

  /** `handle_set_slider`: "S n v" sets slider `n` to `v`; malformed or out-of-range requests are ignored. */
  function HandleSetSlider(sliders: seq<int>, msg: string): (r: seq<int>)
    requires |msg| >= 1
    ensures |r| == |sliders|
    ensures forall i, j :: 0 <= i < j < |r| ==> r[i] == sliders[i] || r[j] == sliders[j]
    ensures ScanTwoInts(msg[1..]).None? ==> r == sliders
  {
    match ScanTwoInts(msg[1..])
    case None => sliders
    case Some((n, v)) =>
      if n < 0 || n >= |sliders| then sliders
      else sliders[n := v]
  }

  /** A well-formed slider command stores the value in exactly the named slider, and only when the index is in range. */
  lemma SliderCommand(sliders: seq<int>, n: int, v: int)
    requires INT_MIN <= n <= INT_MAX && INT_MIN <= v <= INT_MAX
    ensures 0 <= n < |sliders| ==> HandleSetSlider(sliders, Command('S', n, v)) == sliders[n := v]
    ensures !(0 <= n < |sliders|) ==> HandleSetSlider(sliders, Command('S', n, v)) == sliders
  {
    CommandArguments('S', n, v);
  }

  /** `handle_toggle_output`: "O v" turns saving on when `v` is nonzero and off otherwise; without a number nothing changes. */
  function HandleToggleOutput(saving: bool, msg: string): (r: bool)
    requires |msg| >= 1
    ensures ScanInt(msg[1..]).None? ==> r == saving
    ensures ScanInt(msg[1..]).Some? ==> (r <==> ScanInt(msg[1..]).value.value != 0)
  {
    match ScanInt(msg[1..])
    case None => saving
    case Some(sc) => sc.value != 0
  }

  /**
   * `handle_set_timer`: `parsed` is what `%f` read from the message (None
   * when it read nothing). Values outside `[0, 600]` are ignored; otherwise
   * the interval is split into whole seconds and truncated microseconds.
   */
  function HandleSetTimer(t: Timer, parsed: Option<real>): (r: Timer)
    ensures parsed.None? ==> r == t
    ensures parsed.Some? && !(0.0 <= parsed.value <= TIMER_LIMIT) ==> r == t
    ensures parsed.Some? && 0.0 <= parsed.value <= TIMER_LIMIT ==>
      TimerValid(r) && r.stimer == r.usecs &&
      r.secs as real + r.usecs as real / MICROS as real <= parsed.value &&
      parsed.value < r.secs as real + (r.usecs + 1) as real / MICROS as real
  {
    match parsed
    case None => t
    case Some(v) =>
      if v < 0.0 || v > TIMER_LIMIT then t
      else
        var secs := v.Floor;
        var usecs := (MICROS as real * (v - secs as real)).Floor;
        Timer(secs, usecs, usecs)
  }

  /** The command bytes `handle_message` acts on. */
  predicate Known(c: char) {
    c in "\r\n1nbcirqBSODT"
  }

  /**
   * `handle_message`: one command, selected by the message's first byte.
   * `parseReal` stands for the `%f` conversion the timer command uses.
   */
  function HandleMessage(s: Felix, msg: string, parseReal: string -> Option<real>): (r: Felix)
    requires |msg| >= 1
    ensures FelixInvariant(s) ==> FelixInvariant(r)
    ensures |r.switches| == |s.switches| && |r.sliders| == |s.sliders|
    ensures !Known(msg[0]) ==> r == s
    ensures msg[0] in "\r\n1" ==> !r.running && r.doSteps == 1
    ensures msg[0] == 'b' ==> !r.running && r.doSteps == 0
    ensures msg[0] == 'c' ==> r.running && r.doSteps == 0
    ensures msg[0] in "ir" ==> r.initFlag && r.currentStep == 0 && r.doSteps == s.doSteps
    ensures msg[0] == 'i' ==> r.running == s.running
    ensures msg[0] == 'r' ==> r.running
    ensures msg[0] == 'q' ==> r.quit
    ensures msg[0] != 'q' ==> r.quit == s.quit
    ensures msg[0] !in "ir" ==> r.initFlag == s.initFlag && r.currentStep == s.currentStep
    ensures msg[0] != 'B' ==> r.switches == s.switches
    ensures msg[0] != 'S' ==> r.sliders == s.sliders
    ensures msg[0] != 'n' && BudgetSane(s) ==> BudgetSane(r)
  {
    match msg[0]
    case '\r' => s.(running := false, doSteps := 1)
    case '\n' => s.(running := false, doSteps := 1)
    case '1' => s.(running := false, doSteps := 1)
    case 'n' => s.(running := false, doSteps := HandleStepsAsWritten(msg))
    case 'b' => s.(running := false, doSteps := 0)
    case 'c' => s.(running := true, doSteps := 0)
    case 'i' => s.(currentStep := 0, initFlag := true)
    case 'r' => s.(currentStep := 0, initFlag := true, running := true)
    case 'q' => s.(quit := true)
    case 'B' => s.(switches := HandleSetSwitch(s.switches, msg))
    case 'S' => s.(sliders := HandleSetSlider(s.sliders, msg))
    case 'O' => s.(saving := HandleToggleOutput(s.saving, msg))
    case 'D' => s
    case 'T' => s.(timer := HandleSetTimer(s.timer, parseReal(msg[1..])))
    case _ => s
  }

  /**
   * `handle_message` with the corrected step handler: identical except that
   * an "n" count outside `[0, INT_MAX]` requests no steps, so the step
   * budget never goes negative.
   */
  function HandleMessageFixed(s: Felix, msg: string, parseReal: string -> Option<real>): (r: Felix)
    requires |msg| >= 1
    ensures BudgetSane(s) ==> BudgetSane(r)
    ensures FelixInvariant(s) ==> FelixInvariant(r)
    ensures msg[0] == 'n' ==> !r.running && 0 <= r.doSteps <= INT_MAX
    ensures msg[0] != 'n' ==> r == HandleMessage(s, msg, parseReal)
    ensures 0 <= Strtol(msg[1..]).value <= INT_MAX ==> r == HandleMessage(s, msg, parseReal)
  {
    if msg[0] == 'n' then s.(running := false, doSteps := HandleSteps(msg))
    else HandleMessage(s, msg, parseReal)
  }

  /**
   * The timeout branch of the main loop: a pending init runs first and is
   * cleared; otherwise a pending step budget runs one step and shrinks by
   * one; otherwise a running simulator steps freely; otherwise it idles.
   * Every step advances the step counter.
   */
  function Tick(s: Felix): (r: (Action, Felix))
    ensures s.initFlag ==> r == (Init, s.(initFlag := false))
    ensures !s.initFlag && s.doSteps > 0 ==>
      r.0 == Step && r.1.doSteps == s.doSteps - 1 && r.1.currentStep == s.currentStep + 1
    ensures r.0 == Step && r.1.doSteps == s.doSteps ==> s.running && s.doSteps <= 0
    ensures r.0 == Idle <==> !s.initFlag && s.doSteps <= 0 && !s.running
    ensures r.0 == Idle ==> r.1 == s
    ensures r.1.running == s.running && r.1.switches == s.switches && r.1.sliders == s.sliders
    ensures FelixInvariant(s) ==> FelixInvariant(r.1)
    ensures BudgetSane(s) ==> BudgetSane(r.1)
  {
    if s.initFlag then (Init, s.(initFlag := false))
    else if s.doSteps > 0 then (Step, s.(doSteps := s.doSteps - 1, currentStep := s.currentStep + 1))
    else if s.running then (Step, s.(currentStep := s.currentStep + 1))
    else (Idle, s)
  }

  /**
   * A negative step budget acts like no budget: the timeout does what it
   * would do with a budget of 0, and the negative budget stays as it was.
   */
  lemma NegativeBudgetIsNone(s: Felix)
    requires s.doSteps < 0
    ensures Tick(s).0 == Tick(s.(doSteps := 0)).0
    ensures Tick(s).1 == Tick(s.(doSteps := 0)).1.(doSteps := s.doSteps)
  {
  }

  /**
   * With the as-written handler, "n5000000000" sent to a stopped simulator
   * sets up a budget of 705032704 steps, while the corrected handler
   * requests none.
   */
  lemma HugeStepRequest(s: Felix, k: int, parseReal: string -> Option<real>)
    requires !s.initFlag && k == 5000000000
    ensures HandleMessage(s, "n" + FormatInt(k), parseReal).doSteps == 705032704
    ensures Tick(HandleMessage(s, "n" + FormatInt(k), parseReal)).0 == Step
    ensures Tick(HandleMessageFixed(s, "n" + FormatInt(k), parseReal)).0 == Idle
  {
    StepsAsWrittenWrapPositive(k);
    var msg := "n" + FormatInt(k);
    assert msg[1..] == FormatInt(k) + [];
    StrtolFormatted(k, []);
  }

  /** The state after `k` timeouts with no message in between. */
  function Ticks(s: Felix, k: nat): Felix
    decreases k
  {
    if k == 0 then s else Ticks(Tick(s).1, k - 1)
  }

  /** A stopped simulator with a budget of `k` steps performs exactly `k` steps, then idles. */
  lemma {:induction false} BudgetRunsOut(s: Felix, k: nat)
    requires !s.initFlag && !s.running && s.doSteps == k
    ensures Ticks(s, k).currentStep == s.currentStep + k
    ensures Ticks(s, k).doSteps == 0 && !Ticks(s, k).initFlag && !Ticks(s, k).running
    ensures Tick(Ticks(s, k)).0 == Idle
    decreases k
  {
    if k > 0 {
      BudgetRunsOut(Tick(s).1, k - 1);
    }
  }

  /** Sending "n" with a count `k` and letting the timer fire `k` times advances the simulation by exactly `k` steps. */
  lemma StepCommandRuns(s: Felix, k: int, parseReal: string -> Option<real>)
    requires !s.initFlag && 0 <= k <= INT_MAX
    ensures Ticks(HandleMessage(s, "n" + FormatInt(k), parseReal), k).currentStep == s.currentStep + k
    ensures Tick(Ticks(HandleMessage(s, "n" + FormatInt(k), parseReal), k)).0 == Idle
  {
    StepsRoundTrip(k, []);
    BudgetRunsOut(HandleMessage(s, "n" + FormatInt(k), parseReal), k);
  }

  /** After "r" the next timeout initialises the model and the one after it steps. */
  lemma RunRestarts(s: Felix, parseReal: string -> Option<real>)
    ensures Tick(HandleMessage(s, "r", parseReal)).0 == Init
    ensures Tick(HandleMessage(s, "r", parseReal)).1.currentStep == 0
    ensures Tick(Tick(HandleMessage(s, "r", parseReal)).1).0 == Step
  {
  }
}
