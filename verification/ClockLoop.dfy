/** The clock servo of ptp.c: the integrator, what every run of reports does to the
    clock, and where the closed loop can come to rest. */
module ClockLoop {
  import opened CInt
  import opened PtpTime
  import opened Tsu
  import Gf2
  import Timesync

  const PTP_MAX_ERR_NS := 500

  /** What one fine report reads and writes. */
  datatype FineState = Fine(integrated: int, register: Adjustment)

  function FineStep(s: FineState, error: int): FineState {
    var integrated := s.integrated + error;
    Fine(integrated, Tuned(s.register, error, integrated, PTP_MAX_ERR_NS))
  }

  /** The servo's state, and what one report makes it do to the clock. `defined` is
      lost for good when a 32-bit sum overflows. */
  datatype Clock = Clock(servo: FineState, sync: Timesync.Sync, defined: bool)

  const POWER_ON := Clock(Fine(0, NO_ADJUSTMENT), Timesync.INITIAL, true)

  datatype Action = Nothing | Set(time: Ts) | ShiftedBy(nanosec: int)

  /** The integrator and the correction fit 32 bits. */
  predicate Fits(s: FineState, error: int) {
    IsInt32(s.integrated + error) && TuneDefined(error, s.integrated + error)
  }

  /** A difference of whole seconds goes to the coarse service and clears the
      integrator; any other is integrated, tuned for and applied to the clock. */
  function Serve(c: Clock, r: Report, uptime: int, now: Ts): (Clock, Action) {
    if !c.defined then (c, Nothing)
    else if r.diff.seconds != 0 then
      var (sync, effect) := Timesync.OnCoarse(c.sync, r.synced.seconds, ToUint32(r.synced.nanosec), uptime, now);
      (Clock(Fine(0, c.servo.register), sync, true), if effect.HardSet? then Set(effect.time) else Nothing)
    else if !Fits(c.servo, r.diff.nanosec) then (c.(defined := false), Nothing)
    else
      var servo := FineStep(c.servo, r.diff.nanosec);
      var sync := c.sync.(status := Timesync.Status.Fine, diff := r.diff.nanosec, average := servo.integrated);
      (Clock(servo, sync, true), ShiftedBy(servo.register.Signed()))
  }

  /** The counter after an action on a clock that showed `before`. */
  function Moved(action: Action, before: nat, pace: Pace): int
    requires action.Set? ==> 0 <= action.time.nanosec < NS_SEC_PERIOD
  {
    match action
    case Nothing => before
    case Set(time) => AfterSet(time, pace.gap)
    case ShiftedBy(nanosec) => before + nanosec
  }

  /** ptp_process_time_diff and the objects it drives. */
  class Servo {
    var integrated: int
    var defined: bool
    const driver: Driver
    const sync: Timesync.Callbacks

    ghost predicate Valid()
      reads this, driver, sync
    {
      sync.driver == driver && sync.Valid()
    }

    ghost function Model(): Clock
      reads this, driver, sync
    {
      Clock(Fine(integrated, driver.fineTune), sync.Model(), defined)
    }

    constructor ()
      ensures Valid() && fresh(driver) && fresh(sync)
      ensures Model() == POWER_ON
    {
      integrated, defined := 0, true;
      var d := new Driver();
      driver := d;
      sync := new Timesync.Callbacks(d);
    }

    /** Whole seconds first; otherwise integrate, tune, apply, and pass it on. */
    method Process(synced: Ts, diff: Ts, pace: Pace)
      requires Valid() && defined && (diff.seconds != 0 ==> ToUint32(synced.nanosec) < NS_SEC_PERIOD)
      requires diff.seconds == 0 ==> driver.counter >= TWO30
      modifies this, driver, sync
      ensures Valid()
      ensures var (after, action) :=
          Serve(old(Model()), Report(synced, diff), old(driver.uptime), NowAt(old(driver.counter), pace));
        && Model() == after
        && (action.Set? ==> 0 <= action.time.nanosec < NS_SEC_PERIOD)
        && driver.counter == Moved(action, old(driver.counter), pace)
    {
      if diff.seconds != 0 {
        sync.CoarseTimeReceived(synced.seconds, ToUint32(synced.nanosec), pace);
        integrated := 0;
      } else if !Fits(Fine(integrated, driver.fineTune), diff.nanosec) {
        defined := false;
      } else {
        integrated := integrated + diff.nanosec;
        driver.ClockFineTune(diff.nanosec, integrated, PTP_MAX_ERR_NS);
        driver.Systick();
        sync.FineTimeReceived(0, 0, pace);
        sync.UpdateError(diff.nanosec, integrated);
      }
    }
  }

  /** What one report does, in numbers: a difference of whole seconds clears the
      integrator and shifts nothing; any other adds to it and shifts the clock by the
      error and a twentieth of the sum, except that within 500 ns, unless the error is
      500 ns or more below zero, the shift of the report before is applied again. */
  lemma ServedShift(c: Clock, r: Report, uptime: int, now: Ts)
    requires c.defined && Abs(r.diff.nanosec) < 1_000_000_000
    requires r.diff.seconds == 0 ==> Abs(c.servo.integrated + r.diff.nanosec) <= 1_474_836_499
    ensures var (after, action) := Serve(c, r, uptime, now);
      var sum := c.servo.integrated + r.diff.nanosec;
      var shift := r.diff.nanosec + TruncDiv(sum, 20);
      && after.defined
      && (r.diff.seconds != 0 ==>
            !action.ShiftedBy? && after.servo.integrated == 0 && after.servo.register == c.servo.register)
      && (r.diff.seconds == 0 ==>
            && after.servo.integrated == sum && after.sync.average == sum && after.sync.diff == r.diff.nanosec
            && action == ShiftedBy(if -500 < shift < 500 && r.diff.nanosec > -500 then c.servo.register.Signed()
                                   else shift)
            && after.servo.register.Signed() == action.nanosec)
  {
    if r.diff.seconds == 0 {
      TuneFits(r.diff.nanosec, c.servo.integrated + r.diff.nanosec);
      if !DeadBand(r.diff.nanosec, c.servo.integrated + r.diff.nanosec, PTP_MAX_ERR_NS) {
        TunedDecodes(c.servo.register, r.diff.nanosec, c.servo.integrated + r.diff.nanosec, PTP_MAX_ERR_NS);
      }
    }
  }

  /** Nothing overflows if and only if the sum fits 32 bits and so does the correction,
      with both its signs. */
  lemma ServedDefined(c: Clock, r: Report, uptime: int, now: Ts)
    ensures var sum := c.servo.integrated + r.diff.nanosec;
      Serve(c, r, uptime, now).0.defined <==>
        c.defined && (r.diff.seconds == 0 ==>
                        && -0x8000_0000 <= sum < 0x8000_0000
                        && -0x8000_0000 < r.diff.nanosec + TruncDiv(sum, 20) < 0x8000_0000)
  {
  }

  // ----- Correction accounting over any run of fine reports

  function FineRun(s: FineState, errors: seq<int>): FineState {
    if errors == [] then s else FineStep(FineRun(s, errors[..|errors| - 1]), errors[|errors| - 1])
  }

  /** The shift applied to the clock along the run: one register write a report. */
  function Shift(s: FineState, errors: seq<int>): int {
    if errors == [] then 0
    else Shift(s, errors[..|errors| - 1]) + FineRun(s, errors).register.Signed()
  }

  function Sum(xs: seq<int>): int {
    if xs == [] then 0 else Sum(xs[..|xs| - 1]) + xs[|xs| - 1]
  }

  /** The integrator as report k sees it. */
  function IntegratedAt(s: FineState, errors: seq<int>, k: nat): int
    requires k < |errors|
  {
    s.integrated + Sum(errors[..k + 1])
  }

  predicate Skipped(s: FineState, errors: seq<int>, k: nat)
    requires k < |errors|
  {
    DeadBand(errors[k], IntegratedAt(s, errors, k), PTP_MAX_ERR_NS)
  }

  /** The latest report up to k that is outside the dead band, or -1. */
  function LatestTuning(s: FineState, errors: seq<int>, k: int): (j: int)
    requires -1 <= k < |errors|
    ensures -1 <= j <= k
    ensures j >= 0 ==> !Skipped(s, errors, j)
    ensures forall i :: j < i <= k ==> Skipped(s, errors, i)
    decreases k + 1
  {
    if k < 0 then -1 else if !Skipped(s, errors, k) then k else LatestTuning(s, errors, k - 1)
  }

  /** The correction that report k applies: that of the latest tuning, or what the
      register held to begin with. */
  function Applied(s: FineState, errors: seq<int>, k: nat): int
    requires k < |errors|
  {
    var j := LatestTuning(s, errors, k);
    if j < 0 then s.register.Signed() else FreqAdj(errors[j], IntegratedAt(s, errors, j))
  }

  predicate Decodes(s: FineState, errors: seq<int>) {
    forall k :: 0 <= k < |errors| ==> Abs(FreqAdj(errors[k], IntegratedAt(s, errors, k))) < TWO30
  }

  function SumApplied(s: FineState, errors: seq<int>, n: nat): int
    requires n <= |errors|
  {
    if n == 0 then 0 else SumApplied(s, errors, n - 1) + Applied(s, errors, n - 1)
  }

  lemma {:induction false} PrefixTuning(s: FineState, errors: seq<int>, n: nat, k: int)
    requires -1 <= k < n <= |errors|
    ensures LatestTuning(s, errors[..n], k) == LatestTuning(s, errors, k)
    ensures k >= 0 ==> Applied(s, errors[..n], k) == Applied(s, errors, k)
    ensures forall i :: 0 <= i <= k ==> IntegratedAt(s, errors[..n], i) == IntegratedAt(s, errors, i)
    decreases k + 1
  {
    if k >= 0 {
      assert errors[..n][..k + 1] == errors[..k + 1];
      PrefixTuning(s, errors, n, k - 1);
    }
  }

  lemma {:induction false} PrefixSum(s: FineState, errors: seq<int>, n: nat, m: nat)
    requires m <= n <= |errors|
    ensures SumApplied(s, errors[..n], m) == SumApplied(s, errors, m)
  {
    if m > 0 {
      PrefixSum(s, errors, n, m - 1);
      PrefixTuning(s, errors, n, m - 1);
    }
  }

  lemma {:induction false} IntegratorSums(s: FineState, errors: seq<int>)
    ensures FineRun(s, errors).integrated == s.integrated + Sum(errors)
  {
    if errors != [] {
      IntegratorSums(s, errors[..|errors| - 1]);
    }
  }

  lemma PrefixDecodes(s: FineState, errors: seq<int>, n: nat)
    requires Decodes(s, errors) && n <= |errors|
    ensures Decodes(s, errors[..n])
  {
    forall k | 0 <= k < n ensures IntegratedAt(s, errors[..n], k) == IntegratedAt(s, errors, k) {
      PrefixTuning(s, errors, n, k);
    }
  }

  /** After every run the register holds what the last report applied. */
  lemma {:induction false} RegisterHolds(s: FineState, errors: seq<int>)
    requires Decodes(s, errors) && errors != []
    ensures FineRun(s, errors).register.Signed() == Applied(s, errors, |errors| - 1)
  {
    var n := |errors| - 1;
    if Skipped(s, errors, n) {
      SkippedHolds(s, errors);
      if n > 0 {
        PrefixDecodes(s, errors, n);
        RegisterHolds(s, errors[..n]);
        PrefixTuning(s, errors, n, n - 1);
      }
      hide FreqAdj, Sum, DeadBand, IntegratedAt, FineRun;
    } else {
      TunedHolds(s, errors);
    }
  }

  lemma TunedHolds(s: FineState, errors: seq<int>)
    requires Decodes(s, errors) && errors != [] && !Skipped(s, errors, |errors| - 1)
    ensures FineRun(s, errors).register.Signed() == Applied(s, errors, |errors| - 1)
  {
    hide Tuned, FreqAdj, Sum;
    var n := |errors| - 1;
    var last := FineRun(s, errors[..n]);
    assert errors[..n + 1] == errors;
    IntegratorSums(s, errors);
    TunedDecodes(last.register, errors[n], last.integrated + errors[n], PTP_MAX_ERR_NS);
  }

  lemma SkippedHolds(s: FineState, errors: seq<int>)
    requires errors != [] && Skipped(s, errors, |errors| - 1)
    ensures FineRun(s, errors).register == FineRun(s, errors[..|errors| - 1]).register
  {
    hide FreqAdj, Sum;
    assert errors[..|errors| - 1 + 1] == errors;
    IntegratorSums(s, errors);
  }

  /** Along every run of fine reports the integrator is the sum of the errors, and
      the clock has been shifted by the sum, over the reports, of the correction
      of the latest report outside the dead band: a report inside the dead band
      applies the old correction once more. */
  lemma {:induction false} Accounting(s: FineState, errors: seq<int>)
    requires Decodes(s, errors)
    ensures FineRun(s, errors).integrated == s.integrated + Sum(errors)
    ensures Shift(s, errors) == SumApplied(s, errors, |errors|)
  {
    IntegratorSums(s, errors);
    if errors != [] {
      var n := |errors| - 1;
      PrefixDecodes(s, errors, n);
      Accounting(s, errors[..n]);
      PrefixSum(s, errors, n, n);
      RegisterHolds(s, errors);
    }
  }

  // ----- The closed loop

  /** The servo on a steady master and a clock that moves by exactly the signed
      register: the error that the next report will carry, and the servo. */
  datatype Loop = Loop(error: int, servo: FineState) {
    function Next(): Loop {
      var after := FineStep(servo, error);
      Loop(error - after.register.Signed(), after)
    }

    function After(n: nat): Loop {
      if n == 0 then this else After(n - 1).Next()
    }

    /** The integrator as the next report will see it. */
    function Integral(): int {
      servo.integrated + error
    }

    predicate Skips() {
      DeadBand(error, Integral(), PTP_MAX_ERR_NS)
    }

    /** Within what one second of difference and 30 bits of correction allow. */
    predicate InRange() {
      Abs(error) < NS_SEC_PERIOD && Abs(Integral()) <= 1_474_836_499 && servo.register.Valid()
    }
  }

  /** A report outside the dead band replaces the error by what is left of the
      integral part of its own correction. */
  lemma TuningStep(l: Loop)
    requires l.InRange() && !l.Skips()
    ensures var next := l.Next();
      && next.error == -TruncDiv(l.Integral(), 20)
      && next.servo.integrated == l.Integral()
      && next.Integral() == l.Integral() - TruncDiv(l.Integral(), 20)
      && next.InRange()
  {
    TuneFits(l.error, l.Integral());
    TunedDecodes(l.servo.register, l.error, l.Integral(), PTP_MAX_ERR_NS);
  }

  lemma Shrinks(i: int)
    ensures var j := i - TruncDiv(i, 20);
      && Abs(j) <= Abs(i) && (Sign(j) == Sign(i) || j == 0)
      && (Abs(i) >= 20 ==> Abs(j) < Abs(i))
      && Abs(j) == Abs(i) - Abs(i) / 20
  {
  }

  predicate TunesThrough(l: Loop, n: nat) {
    forall k: nat :: k < n ==> !l.After(k).Skips()
  }

  /** Along n consecutive reports outside the dead band nothing overflows, each
      error is -trunc(I/20) of the integral before it, and the integral never
      grows, never changes sign and strictly falls while it is 20 or more. */
  lemma {:induction false} Contracts(l: Loop, n: nat)
    requires l.InRange() && TunesThrough(l, n)
    ensures l.After(n).InRange()
    ensures Abs(l.After(n).Integral()) <= Abs(l.Integral())
    ensures l.After(n).Integral() == 0 || Sign(l.After(n).Integral()) == Sign(l.Integral())
    ensures Abs(l.After(n).Integral()) < 20 || Abs(l.After(n).Integral()) <= Abs(l.Integral()) - n
    ensures n > 0 ==> l.After(n).error == -TruncDiv(l.After(n - 1).Integral(), 20)
  {
    if n > 0 {
      assert TunesThrough(l, n - 1);
      Contracts(l, n - 1);
      TuningStep(l.After(n - 1));
      Shrinks(l.After(n - 1).Integral());
    }
  }

  /** What is above 19 of the integral. */
  function Above(l: Loop, n: nat): int {
    Abs(l.After(n).Integral()) - 19
  }

  /** One such value after another: a twentieth less, or not positive any more. */
  predicate Falls(v: int, w: int) {
    (v >= 0 ==> 20 * w <= 19 * v) && (v <= 0 ==> w <= 0)
  }

  lemma TwentiethLost(i: int)
    ensures Falls(Abs(i) - 19, Abs(i - TruncDiv(i, 20)) - 19)
  {
  }

  lemma AboveFalls(l: Loop, n: nat)
    requires l.InRange() && TunesThrough(l, n + 1)
    ensures Falls(Above(l, n), Above(l, n + 1))
  {
    hide Loop.Next, Loop.InRange, Loop.Skips, Falls;
    assert TunesThrough(l, n);
    Contracts(l, n);
    TuningStep(l.After(n));
    TwentiethLost(l.After(n).Integral());
  }

  lemma SevenSteps(v0: int, v1: int, v2: int, v3: int, v4: int, v5: int, v6: int, v7: int)
    requires Falls(v0, v1) && Falls(v1, v2) && Falls(v2, v3) && Falls(v3, v4)
    requires Falls(v4, v5) && Falls(v5, v6) && Falls(v6, v7)
    ensures v0 >= 0 ==> 1000 * v7 <= 699 * v0
    ensures v0 <= 0 ==> v7 <= 0
  {
  }

  lemma SevenReports(l: Loop, n: nat)
    requires l.InRange() && TunesThrough(l, n + 7)
    ensures Above(l, n) >= 0 ==> 1000 * Above(l, n + 7) <= 699 * Above(l, n)
    ensures Above(l, n) <= 0 ==> Above(l, n + 7) <= 0
  {
    hide Above, Loop.InRange, Loop.Skips, Falls;
    AboveFalls(l, n);
    AboveFalls(l, n + 1);
    AboveFalls(l, n + 2);
    AboveFalls(l, n + 3);
    AboveFalls(l, n + 4);
    AboveFalls(l, n + 5);
    AboveFalls(l, n + 6);
    SevenSteps(Above(l, n), Above(l, n + 1), Above(l, n + 2), Above(l, n + 3), Above(l, n + 4),
               Above(l, n + 5), Above(l, n + 6), Above(l, n + 7));
  }

  /** Fourteen reports outside the dead band halve what is above 19. */
  lemma Halves(l: Loop, n: nat)
    requires l.InRange() && TunesThrough(l, n + 14)
    ensures Above(l, n) >= 0 ==> 2 * Above(l, n + 14) <= Above(l, n)
    ensures Above(l, n) <= 0 ==> Above(l, n + 14) <= 0
  {
    hide Above, Loop.InRange, Loop.Skips;
    SevenReports(l, n);
    SevenReports(l, n + 7);
    assert n + 7 + 7 == n + 14;
  }

  lemma {:induction false} HalvedTimes(l: Loop, k: nat)
    requires l.InRange() && TunesThrough(l, 14 * k)
    ensures Above(l, 0) >= 0 ==> Above(l, 14 * k) * Gf2.Pow2(k) <= Above(l, 0)
    ensures Above(l, 0) <= 0 ==> Above(l, 14 * k) <= 0
  {
    if k > 0 {
      hide Above, Loop.InRange, Loop.Skips;
      HalvedTimes(l, k - 1);
      Halves(l, 14 * (k - 1));
      HalfScaled(Above(l, 14 * (k - 1)), Above(l, 14 * k), Gf2.Pow2(k - 1), Above(l, 0));
      hide Gf2.Pow2;
    }
  }

  lemma HalfScaled(v: int, w: int, p: nat, top: int)
    requires p > 0 && (v >= 0 ==> 2 * w <= v) && (v <= 0 ==> w <= 0)
    requires (top >= 0 ==> v * p <= top) && (top <= 0 ==> v <= 0)
    ensures (top >= 0 ==> w * (2 * p) <= top) && (top <= 0 ==> w <= 0)
  {
    if v >= 0 {
      Scales(2 * w, v, p);
      assert w * (2 * p) == 2 * w * p;
    } else {
      Scales(w, 0, 2 * p);
    }
  }

  lemma Scales(a: int, b: int, p: nat)
    requires a <= b
    ensures a * p <= b * p
  {
  }

  /** No run stays outside the dead band: the reports until one is skipped are at most
      14 for every binary digit of the integral, and one more. */
  lemma DeadBandIsReached(l: Loop, k: nat) returns (n: nat)
    requires l.InRange() && Abs(l.Integral()) < Gf2.Pow2(k)
    ensures n <= 14 * k + 1 && TunesThrough(l, n) && l.After(n).Skips() && l.After(n).InRange()
  {
    n := FirstSkip(l, 14 * k + 1);
    if n == 14 * k + 1 {
      SmallIsSkipped(l, k);
    }
    Contracts(l, n);
    hide Loop.InRange, Loop.Skips, Loop.Next;
  }

  /** The integral is below 20 by then, and the next error is zero. */
  lemma SmallIsSkipped(l: Loop, k: nat)
    requires l.InRange() && Abs(l.Integral()) < Gf2.Pow2(k) && TunesThrough(l, 14 * k + 1)
    ensures l.After(14 * k + 1).Skips()
  {
    hide Loop.InRange, Loop.Next, Gf2.Pow2;
    assert TunesThrough(l, 14 * k);
    HalvedTimes(l, k);
    assert Above(l, 0) + 19 < Gf2.Pow2(k);
    BelowOne(Above(l, 14 * k), Gf2.Pow2(k), Above(l, 0));
    Contracts(l, 14 * k);
    TuningStep(l.After(14 * k));
  }

  lemma BelowOne(v: int, p: int, top: int)
    requires p > 0 && top < p && (top >= 0 ==> v * p <= top) && (top <= 0 ==> v <= 0)
    ensures v <= 0
  {
    assert v * p == (v - 1) * p + p;
  }

  /** The first skipped report, or none before `limit`. */
  lemma FirstSkip(l: Loop, limit: nat) returns (n: nat)
    ensures n <= limit && TunesThrough(l, n) && (n < limit ==> l.After(n).Skips())
  {
    n := 0;
    while n < limit && !l.After(n).Skips()
      invariant n <= limit && TunesThrough(l, n)
    {
      n := n + 1;
    }
  }

  /** From every state in range that is within 435 reports. */
  lemma DeadBandIsNear(l: Loop) returns (n: nat)
    requires l.InRange()
    ensures n <= 435 && TunesThrough(l, n) && l.After(n).Skips() && l.After(n).InRange()
  {
    assert Gf2.Pow2(8) == 256;
    assert Gf2.Pow2(16) == 65_536;
    assert Gf2.Pow2(24) == 0x100_0000;
    assert Gf2.Pow2(31) == TWO31;
    n := DeadBandIsReached(l, 31);
  }

  /** So a report skipped with a correction of at least the boundary in the
      register leaves the clock off by half the boundary before or after it. */
  lemma SkipMisses(l: Loop)
    requires l.Skips() && Abs(l.servo.register.Signed()) >= PTP_MAX_ERR_NS
    ensures 2 * Abs(l.error) >= PTP_MAX_ERR_NS || 2 * Abs(l.Next().error) >= PTP_MAX_ERR_NS
  {
  }

  // ----- Where the closed loop rests

  predicate AtRest(l: Loop) {
    l.Next() == l
  }

  /** The loop is at rest exactly when there is no error, the register holds no
      shift and the integral alone stays inside the dead band. */
  lemma RestCondition(l: Loop)
    requires IsInt32(l.Integral())
    ensures AtRest(l) <==>
      && l.error == 0 && l.servo.register.nanosec == 0
      && Abs(TruncDiv(l.servo.integrated, 20)) < PTP_MAX_ERR_NS
  {
  }

  /** A loop that is not at rest is not at rest one report later. */
  lemma UnrestStep(l: Loop)
    requires IsInt32(l.Integral()) && IsInt32(l.Next().Integral())
    ensures AtRest(l.Next()) <==> AtRest(l)
  {
    RestCondition(l);
    RestCondition(l.Next());
    hide FreqAdj;
    if !l.Skips() && l.Next().error == 0 && l.Next().servo.register.nanosec == 0 {
      assert l.error == 0;
      NoErrorSkips(l);
    }
  }

  lemma NoErrorSkips(l: Loop)
    requires l.error == 0 && Abs(TruncDiv(l.Integral(), 20)) < PTP_MAX_ERR_NS
    ensures l.Skips()
  {
  }

  /** The integral fits its 32 bits at each of n reports. */
  predicate DefinedThrough(l: Loop, n: nat) {
    forall k: nat :: k < n ==> IsInt32(l.After(k).Integral())
  }

  /** The loop never settles: as long as nothing overflows it is at rest n reports
      later if and only if it was at rest to begin with. */
  lemma {:induction false} RestIsNeverReached(l: Loop, n: nat)
    requires DefinedThrough(l, n + 1)
    ensures AtRest(l.After(n)) <==> AtRest(l)
  {
    if n > 0 {
      hide AtRest, Loop.Next, IsInt32;
      assert DefinedThrough(l, n) && l.After(n) == l.After(n - 1).Next();
      RestIsNeverReached(l, n - 1);
      UnrestStep(l.After(n - 1));
    }
  }

  // ----- From power-on: a region that the loop never leaves

  const SKIP_LOW := -200_800
  const SKIP_HIGH := 10_000
  const SUM_LOW := -190_800
  const REGISTER_LOW := -230_841
  const REGISTER_HIGH := 201_301

  predicate SmallRegister(r: Adjustment) {
    r.Valid() && REGISTER_LOW <= r.Signed() <= REGISTER_HIGH
  }

  /** After a skipped report: `error + register` was the error before it. */
  predicate HasSkipped(l: Loop) {
    var before := l.error + l.servo.register.Signed();
    && -PTP_MAX_ERR_NS < before && Abs(before + TruncDiv(l.servo.integrated, 20)) < PTP_MAX_ERR_NS
    && SUM_LOW <= l.servo.integrated && SmallRegister(l.servo.register)
  }

  /** After a report outside the dead band: only near zero can the next one be
      skipped, and there the register is small. */
  predicate HasTuned(l: Loop) {
    && l.error == -TruncDiv(l.servo.integrated, 20) && Abs(l.servo.integrated) < NS_SEC_PERIOD
    && l.servo.register.Valid()
    && (SKIP_LOW <= l.servo.integrated <= SKIP_HIGH ==> SmallRegister(l.servo.register))
  }

  /** At power-on, or after a report of whole seconds: where the next one can be
      skipped, the register is small. */
  predicate HasCleared(l: Loop) {
    && l.servo.integrated == 0 && Abs(l.error) < NS_SEC_PERIOD && l.servo.register.Valid()
    && (Abs(l.error) < PTP_MAX_ERR_NS ==> SmallRegister(l.servo.register))
  }

  predicate Region(l: Loop) {
    HasCleared(l) || HasSkipped(l) || HasTuned(l)
  }

  /** The region lies within what a second of difference and 30 bits allow; and after
      a skipped report the error is below a quarter of a millisecond. */
  lemma RegionInRange(l: Loop)
    requires Region(l)
    ensures l.InRange()
    ensures HasSkipped(l) ==> Abs(l.error) < 250_000
  {
  }

  lemma SkipKeepsRegion(l: Loop)
    requires Region(l) && l.Skips()
    ensures HasSkipped(l.Next())
  {
    if HasTuned(l) {
      SkipsNearZero(l.servo.integrated, l.error, l.Integral());
    }
  }

  lemma SkipsNearZero(sum: int, error: int, integral: int)
    requires error == -TruncDiv(sum, 20) && integral == sum + error
    requires Abs(error + TruncDiv(integral, 20)) < PTP_MAX_ERR_NS && error > -PTP_MAX_ERR_NS
    ensures SKIP_LOW <= sum <= SKIP_HIGH && SUM_LOW <= integral
  {
  }

  lemma TuneKeepsRegion(l: Loop)
    requires Region(l) && !l.Skips()
    ensures HasTuned(l.Next())
  {
    RegionInRange(l);
    TuningStep(l);
    TuneFits(l.error, l.Integral());
    TunedDecodes(l.servo.register, l.error, l.Integral(), PTP_MAX_ERR_NS);
    if SKIP_LOW <= l.Integral() <= SKIP_HIGH {
      TunedSmall(l);
    }
    hide Loop.InRange, DeadBand;
  }

  /** Where the next report can be skipped, the correction is small. */
  lemma TunedSmall(l: Loop)
    requires Region(l) && SKIP_LOW <= l.Integral() <= SKIP_HIGH
    ensures REGISTER_LOW <= FreqAdj(l.error, l.Integral()) <= REGISTER_HIGH
  {
  }

  lemma RegionStep(l: Loop)
    requires Region(l)
    ensures Region(l.Next())
  {
    hide Loop.Next, HasCleared, HasSkipped, HasTuned;
    if l.Skips() {
      SkipKeepsRegion(l);
    } else {
      TuneKeepsRegion(l);
    }
  }

  /** A report handled across a second boundary: the servo takes its difference for
      one of whole seconds, clears the integrator and leaves the clock alone. */
  function Crossed(l: Loop): Loop {
    Loop(l.error, Fine(0, l.servo.register))
  }

  /** The loop's two steps are what the servo does in fine sync, where no report sets
      the clock. */
  lemma LoopIsServed(l: Loop, c: Clock, r: Report, uptime: int, now: Ts)
    requires c.defined && c.sync.status == Timesync.Status.Fine && c.servo == l.servo
    requires r.diff.seconds == 0 ==> r.diff.nanosec == l.error && Fits(l.servo, l.error)
    ensures var (after, action) := Serve(c, r, uptime, now);
      var t := if r.diff.seconds == 0 then l.Next() else Crossed(l);
      && after.defined && after.sync.status == Timesync.Status.Fine && after.servo == t.servo
      && t.error == l.error - (if action.ShiftedBy? then action.nanosec else 0)
      && !action.Set?
  {
  }

  lemma CrossedKeepsRegion(l: Loop)
    requires Region(l)
    ensures HasCleared(Crossed(l))
  {
    RegionInRange(l);
  }

  /** A run of reports, of which some cross a second boundary. */
  function Ran(l: Loop, crossings: seq<bool>): Loop {
    if crossings == [] then l
    else
      var n := |crossings| - 1;
      var before := Ran(l, crossings[..n]);
      if crossings[n] then Crossed(before) else before.Next()
  }

  /** No error and no shift. */
  predicate Still(l: Loop) {
    l.error == 0 && l.servo.register.nanosec == 0
  }

  lemma StillStep(l: Loop)
    requires IsInt32(l.Integral())
    ensures Still(l.Next()) ==> Still(l)
  {
    if !l.Skips() && Still(l.Next()) {
      assert l.error == 0;
      NoErrorSkips(l);
    }
  }

  lemma {:induction false} RunKeepsRegion(l: Loop, crossings: seq<bool>)
    requires Region(l) && !Still(l)
    ensures Region(Ran(l, crossings)) && !Still(Ran(l, crossings))
  {
    if crossings != [] {
      hide HasCleared, HasSkipped, HasTuned, Loop.Next;
      var n := |crossings| - 1;
      RunKeepsRegion(l, crossings[..n]);
      var before := Ran(l, crossings[..n]);
      if crossings[n] {
        CrossedKeepsRegion(before);
      } else {
        RegionInRange(before);
        RegionStep(before);
        StillStep(before);
      }
    }
  }

  function PowerOn(error: int): Loop {
    Loop(error, Fine(0, NO_ADJUSTMENT))
  }

  predicate Quiet(l: Loop) {
    l.error == 0 && l.servo.integrated == 0 && l.servo.register.Signed() == 0
  }

  lemma QuietStays(l: Loop)
    requires Quiet(l)
    ensures l.Next() == l && Crossed(l) == l
  {
    hide DeadBand, FreqAdj;
    QuietSkips(l);
  }

  lemma QuietSkips(l: Loop)
    requires Quiet(l)
    ensures l.Skips()
  {
    NoErrorSkips(l);
    hide DeadBand;
  }

  lemma {:induction false} QuietRests(l: Loop, crossings: seq<bool>)
    requires Quiet(l)
    ensures Ran(l, crossings) == l
    decreases |crossings|
  {
    if crossings != [] {
      hide Quiet, Crossed, Loop.Next;
      QuietRests(l, crossings[..|crossings| - 1]);
      QuietStays(l);
    }
  }

  /** From power-on with any error below a second nothing ever overflows or is
      truncated, wherever reports cross a second boundary. */
  lemma PowerOnStaysInRange(error: int, crossings: seq<bool>)
    requires Abs(error) < NS_SEC_PERIOD
    ensures var l := Ran(PowerOn(error), crossings);
      && Region(l) && l.InRange()
      && (error != 0 ==> !Still(l))
  {
    if error == 0 {
      QuietRests(PowerOn(0), crossings);
    } else {
      RunKeepsRegion(PowerOn(error), crossings);
    }
    RegionInRange(Ran(PowerOn(error), crossings));
    hide HasCleared, HasSkipped, HasTuned, Ran;
  }

  lemma RestIsStill(l: Loop)
    requires l.InRange() && AtRest(l)
    ensures Still(l)
  {
    RestCondition(l);
    hide Loop.Next;
  }

  /** From power-on the loop settles, wherever reports cross a second boundary, if and
      only if the first error is zero. */
  lemma PowerOnRest(error: int, crossings: seq<bool>)
    requires Abs(error) < NS_SEC_PERIOD
    ensures AtRest(Ran(PowerOn(error), crossings)) <==> error == 0
  {
    PowerOnStaysInRange(error, crossings);
    if error == 0 {
      QuietRests(PowerOn(0), crossings);
      QuietStays(PowerOn(0));
    } else if AtRest(Ran(PowerOn(error), crossings)) {
      RestIsStill(Ran(PowerOn(error), crossings));
    }
    hide Region, Loop.InRange, Ran;
  }

  // ----- Stale corrections

  /** The next report applies a correction that was computed for an earlier one. */
  predicate Stale(l: Loop) {
    l.Skips() && l.servo.register.Signed() != 0
  }

  /** A report that leads straight into the dead band leaves a correction behind. */
  lemma TunedIsStale(l: Loop)
    requires l.InRange() && !l.Skips() && l.Next().Skips()
    ensures Stale(l.Next())
  {
    TuningStep(l);
    TuneFits(l.error, l.Integral());
    TunedDecodes(l.servo.register, l.error, l.Integral(), PTP_MAX_ERR_NS);
  }

  lemma {:induction false} AfterAfter(l: Loop, m: nat, n: nat)
    ensures l.After(m).After(n) == l.After(m + n)
  {
    if n > 0 {
      hide Loop.Next;
      AfterAfter(l, m, n - 1);
    }
  }

  lemma TuningEndsStale(l: Loop) returns (n: nat)
    requires l.InRange() && !l.Skips()
    ensures Stale(l.After(n))
  {
    n := DeadBandIsNear(l);
    assert n > 0 && TunesThrough(l, n - 1) && !l.After(n - 1).Skips();
    Contracts(l, n - 1);
    TunedIsStale(l.After(n - 1));
  }

  /** How far an integral that grows by a constant error is from the dead band's end. */
  function Room(l: Loop): int {
    if l.error > 0 then 20 * (PTP_MAX_ERR_NS - l.error) + 20 - l.Integral()
    else l.Integral() + 20 * (PTP_MAX_ERR_NS + l.error) + 20
  }

  lemma IdleStep(l: Loop)
    requires l.InRange() && l.Skips() && l.servo.register.Signed() == 0 && l.error != 0
    ensures var t := l.Next();
      && t.InRange() && t.error == l.error && t.servo.register.Signed() == 0
      && 0 <= Room(t) + Abs(l.error) && Room(t) < Room(l)
      && (!t.Skips() ==> FreqAdj(t.error, t.Integral()) != 0)
  {
  }

  /** With an empty register the integral runs out of the dead band. */
  lemma IdlingEndsStale(l: Loop) returns (n: nat)
    requires l.InRange() && l.Skips() && l.servo.register.Signed() == 0 && l.error != 0
    ensures Stale(l.After(n))
    decreases Room(l) + 2 * Abs(l.error)
  {
    IdleStep(l);
    hide Loop.InRange, Loop.Next, FreqAdj;
    var m := 0;
    if l.Next().Skips() {
      m := IdlingEndsStale(l.Next());
    } else {
      m := TuningEndsStale(l.Next());
    }
    n := m + 1;
    assert l.After(1) == l.After(0).Next() == l.Next();
    AfterAfter(l, 1, m);
  }

  lemma {:induction false} RestStays(l: Loop, n: nat)
    requires AtRest(l)
    ensures l.After(n) == l
  {
    if n > 0 {
      RestStays(l, n - 1);
    }
  }

  lemma RestIsNotStale(l: Loop)
    requires l.InRange() && AtRest(l)
    ensures !Stale(l)
  {
    RestCondition(l);
    hide Loop.Next;
  }

  lemma NotResting(l: Loop)
    requires l.Skips() && l.servo.register.Signed() == 0 && !AtRest(l)
    ensures l.error != 0
  {
  }

  lemma UnrestIsStale(l: Loop) returns (n: nat)
    requires l.InRange() && !AtRest(l)
    ensures Stale(l.After(n))
  {
    hide Loop.InRange, Loop.Next, Loop.Skips, AtRest;
    if !l.Skips() {
      n := TuningEndsStale(l);
    } else if l.servo.register.Signed() == 0 {
      NotResting(l);
      n := IdlingEndsStale(l);
    } else {
      n := 0;
      assert l.After(0) == l;
    }
  }

  /** A loop in range runs into a stale correction sooner or later if and only if it
      is not at rest. */
  lemma StaleIff(l: Loop)
    requires l.InRange()
    ensures (exists n: nat :: Stale(l.After(n))) <==> !AtRest(l)
  {
    hide Loop.InRange, AtRest, Stale;
    if AtRest(l) {
      RestIsNotStale(l);
      forall n: nat ensures !Stale(l.After(n)) {
        RestStays(l, n);
      }
    } else {
      var n := UnrestIsStale(l);
    }
  }

  /** From power-on with an error, stale corrections never cease: after every run of
      reports there is one more, if no report crosses a second boundary for a while. */
  lemma StaleForEver(error: int, crossings: seq<bool>)
    requires 0 < Abs(error) < NS_SEC_PERIOD
    ensures exists n: nat :: Stale(Ran(PowerOn(error), crossings).After(n))
  {
    hide AtRest, Stale, Region, Loop.InRange, Loop.Next, Ran;
    PowerOnStaysInRange(error, crossings);
    PowerOnRest(error, crossings);
    StaleIff(Ran(PowerOn(error), crossings));
  }

  // ----- The error that remains

  predicate Misses(l: Loop) {
    2 * Abs(l.error) >= PTP_MAX_ERR_NS
  }

  /** How long an error that only stale corrections move can stay small. */
  function Patience(l: Loop): int {
    var r := l.servo.register.Signed();
    if r == 0 then Room(l) + 2 * Abs(l.error) else if r > 0 then l.error + PTP_MAX_ERR_NS else PTP_MAX_ERR_NS - l.error
  }

  lemma SmallErrorStep(l: Loop)
    requires Region(l) && !Still(l) && !Misses(l) && l.Skips()
    ensures Region(l.Next()) && !Still(l.Next())
    ensures Patience(l) >= 0 && (!Misses(l.Next()) ==> 0 <= Patience(l.Next()) < Patience(l))
  {
    RegionInRange(l);
    RegionStep(l);
    StillStep(l);
    if l.servo.register.Signed() == 0 {
      IdleStep(l);
    }
    hide Region, Loop.InRange;
  }

  lemma SmallErrorTunes(l: Loop)
    requires Region(l) && !Misses(l) && !l.Skips()
    ensures Misses(l.Next())
  {
    RegionInRange(l);
    TuneFits(l.error, l.Integral());
    TunedDecodes(l.servo.register, l.error, l.Integral(), PTP_MAX_ERR_NS);
    hide Region;
  }

  lemma MissIsReached(l: Loop) returns (n: nat)
    requires Region(l) && !Still(l)
    ensures Misses(l.After(n))
    decreases if Misses(l) then 0 else Patience(l) + 1
  {
    hide Region, Still, Loop.Next, Loop.Skips;
    assert l.After(0) == l && l.After(1) == l.After(0).Next();
    if Misses(l) {
      n := 0;
    } else if !l.Skips() {
      SmallErrorTunes(l);
      n := 1;
    } else {
      SmallErrorStep(l);
      var m := MissIsReached(l.Next());
      n := m + 1;
      AfterAfter(l, 1, m);
    }
  }

  /** From power-on with an error the clock never stays within 250 ns: after every run
      of reports it is off by that much again. */
  lemma MissesForEver(error: int, crossings: seq<bool>)
    requires 0 < Abs(error) < NS_SEC_PERIOD
    ensures exists n: nat :: 2 * Abs(Ran(PowerOn(error), crossings).After(n).error) >= PTP_MAX_ERR_NS
  {
    hide Region, Loop.InRange, Loop.Next, Ran, Still;
    PowerOnStaysInRange(error, crossings);
    var n := MissIsReached(Ran(PowerOn(error), crossings));
    assert Misses(Ran(PowerOn(error), crossings).After(n));
  }

  // ----- Swings

  /** One report outside the dead band, and one inside. */
  predicate Cycle(l: Loop) {
    l.InRange() && !l.Skips() && l.Next().Skips()
  }

  /** A report outside the dead band and a skipped one throw the error over to the
      other side, and further by a tenth of the integral. */
  lemma CycleStep(l: Loop)
    requires Cycle(l)
    ensures var part, t := TruncDiv(l.Integral(), 20), l.After(2);
      && t.error == -(l.error + 2 * part)
      && t.Integral() == l.Integral() - 3 * part - l.error
  {
    TuningStep(l);
    TuneFits(l.error, l.Integral());
    TunedDecodes(l.servo.register, l.error, l.Integral(), PTP_MAX_ERR_NS);
    assert l.After(1) == l.After(0).Next() && l.After(2) == l.After(1).Next();
    hide FreqAdj, Loop.InRange;
  }

  /** Error and integral on the same side, the error at least as far. */
  predicate Swings(l: Loop) {
    if l.error > 0 then 0 <= l.Integral() <= l.error else l.error <= l.Integral() <= 0
  }

  function Cycled(l: Loop, n: nat): Loop {
    if n == 0 then l else Cycled(l, n - 1).After(2)
  }

  lemma {:induction false} CycledIsAfter(l: Loop, n: nat)
    ensures Cycled(l, n) == l.After(2 * n)
  {
    if n > 0 {
      hide Loop.After;
      CycledIsAfter(l, n - 1);
      AfterAfter(l, 2 * n - 2, 2);
    } else {
      assert l.After(0) == l;
    }
  }

  predicate Cycles(l: Loop, n: nat) {
    forall k: nat :: k < n ==> Cycle(Cycled(l, k))
  }

  /** The error has changed sides and grown by a tenth of the integral. */
  predicate Thrown(s: Loop, t: Loop) {
    Sign(t.error) == -Sign(s.error) && Abs(t.error) == Abs(s.error) + 2 * (Abs(s.Integral()) / 20)
  }

  /** A swinging loop whose error is not smaller than that of another. */
  predicate SwingsAtLeast(l: Loop, t: Loop) {
    Swings(t) && t.error != 0 && Abs(t.error) >= Abs(l.error)
  }

  /** Along such cycles a swinging error changes sides every time and never shrinks:
      each cycle adds a tenth of the integral. */
  lemma {:induction false} CyclesGrow(l: Loop, n: nat)
    requires Swings(l) && l.error != 0 && Cycles(l, n)
    ensures Cycled(l, n) == l.After(2 * n)
    ensures SwingsAtLeast(l, Cycled(l, n))
    ensures n > 0 ==> Thrown(Cycled(l, n - 1), Cycled(l, n))
  {
    CycledIsAfter(l, n);
    if n > 0 {
      hide Loop.After, Cycle, Thrown, SwingsAtLeast;
      CyclesGrow(l, n - 1);
      assert Cycle(Cycled(l, n - 1));
      OneCycle(l, Cycled(l, n - 1));
    }
  }

  lemma OneCycle(l: Loop, s: Loop)
    requires SwingsAtLeast(l, s) && Cycle(s)
    ensures SwingsAtLeast(l, s.After(2)) && Thrown(s, s.After(2))
  {
    hide Loop.After, Cycle;
    CycleStep(s);
    SwingOver(s.error, s.Integral());
  }

  /** What two throws make of an error and an integral on its side. */
  lemma TwoThrows(e0: nat, i0: nat, e1: nat, i1: nat, e2: nat)
    requires i0 <= e0 && e1 == e0 + 2 * (i0 / 20) && i1 == e0 - i0 + 3 * (i0 / 20) && e2 == e1 + 2 * (i1 / 20)
    ensures 10 * e2 >= 11 * e0 - 38
  {
  }

  lemma CycleIntegral(s: Loop)
    requires Swings(s) && Cycle(s)
    ensures Abs(s.error) > 400
    ensures Abs(s.After(2).Integral()) == Abs(s.error) - Abs(s.Integral()) + 3 * (Abs(s.Integral()) / 20)
  {
    CycleStep(s);
    hide Loop.After, Loop.Next, Loop.InRange;
  }

  /** Every two cycles make a swinging error larger, by a tenth or nearly. */
  lemma TwoCyclesGrow(l: Loop)
    requires Swings(l) && l.error != 0 && Cycles(l, 2)
    ensures Swings(Cycled(l, 2)) && Cycled(l, 2).error != 0
    ensures 10 * Abs(Cycled(l, 2).error) >= 11 * Abs(l.error) - 38
    ensures Abs(Cycled(l, 2).error) > Abs(l.error) > 400
  {
    hide Loop.After, Cycle, Loop.Integral, Swings;
    assert Cycled(l, 0) == l && Cycled(l, 1) == l.After(2) && Cycled(l, 2) == l.After(2).After(2);
    assert Cycle(Cycled(l, 0)) && Cycle(Cycled(l, 1));
    SwingsItself(l);
    OneCycle(l, l);
    OneCycle(l, l.After(2));
    CycleIntegral(l);
    SwingBounds(l);
    TwoThrows(Abs(l.error), Abs(l.Integral()), Abs(l.After(2).error), Abs(l.After(2).Integral()),
              Abs(l.After(2).After(2).error));
  }

  lemma SwingsItself(l: Loop)
    requires Swings(l) && l.error != 0
    ensures SwingsAtLeast(l, l)
  {
  }

  lemma SwingBounds(l: Loop)
    requires Swings(l)
    ensures Abs(l.Integral()) <= Abs(l.error)
  {
  }

  lemma {:induction false} CycledCycled(l: Loop, m: nat, n: nat)
    ensures Cycled(Cycled(l, m), n) == Cycled(l, m + n)
  {
    if n > 0 {
      CycledCycled(l, m, n - 1);
    }
  }

  lemma LaterCycles(l: Loop, m: nat, n: nat)
    requires Cycles(l, m + n)
    ensures Cycles(Cycled(l, m), n)
  {
    hide Cycle;
    forall k: nat | k < n ensures Cycle(Cycled(Cycled(l, m), k)) {
      CycledCycled(l, m, k);
    }
  }

  /** Eight times a tenth more is twice as much. */
  lemma EightTenths(w0: int, w1: int, w2: int, w3: int, w4: int, w5: int, w6: int, w7: int, w8: int)
    requires w0 >= 0 && 10 * w1 >= 11 * w0 && 10 * w2 >= 11 * w1 && 10 * w3 >= 11 * w2 && 10 * w4 >= 11 * w3
    requires 10 * w5 >= 11 * w4 && 10 * w6 >= 11 * w5 && 10 * w7 >= 11 * w6 && 10 * w8 >= 11 * w7
    ensures w8 >= 2 * w0
  {
  }

  /** The error above 38. */
  function Excess(l: Loop, n: nat): int {
    Abs(Cycled(l, n).error) - 38
  }

  lemma ExcessGrows(l: Loop, n: nat)
    requires Swings(l) && l.error != 0 && Cycles(l, n + 2)
    ensures 10 * Excess(l, n + 2) >= 11 * Excess(l, n) && Excess(l, n) > 300
  {
    hide Swings, Cycle, Loop.After;
    assert Cycles(l, n);
    CyclesGrow(l, n);
    SwingsOn(l, Cycled(l, n));
    LaterCycles(l, n, 2);
    TwoCyclesGrow(Cycled(l, n));
    CycledCycled(l, n, 2);
  }

  lemma SwingsOn(l: Loop, t: Loop)
    requires SwingsAtLeast(l, t)
    ensures Swings(t) && t.error != 0
  {
  }

  lemma {:induction false} SixteenCyclesDouble(l: Loop, k: nat)
    requires Swings(l) && l.error != 0 && Cycles(l, 16 * k + 2)
    ensures Excess(l, 16 * k) >= 300 * Gf2.Pow2(k)
  {
    hide Swings, Cycle, Excess;
    if k == 0 {
      ExcessGrows(l, 0);
    } else {
      var n := 16 * (k - 1);
      FewerCycles(l, 16 * k + 2);
      SixteenCyclesDouble(l, k - 1);
      ExcessGrows(l, n);
      ExcessGrows(l, n + 2);
      ExcessGrows(l, n + 4);
      ExcessGrows(l, n + 6);
      ExcessGrows(l, n + 8);
      ExcessGrows(l, n + 10);
      ExcessGrows(l, n + 12);
      ExcessGrows(l, n + 14);
      EightTenths(Excess(l, n), Excess(l, n + 2), Excess(l, n + 4), Excess(l, n + 6), Excess(l, n + 8),
                  Excess(l, n + 10), Excess(l, n + 12), Excess(l, n + 14), Excess(l, n + 16));
    }
  }

  lemma FewerCycles(l: Loop, n: nat)
    requires Cycles(l, n)
    ensures forall m: nat :: m <= n ==> Cycles(l, m)
  {
    hide Cycle;
  }

  lemma CycleEndsSkipped(l: Loop)
    requires Region(l) && Cycle(l)
    ensures HasSkipped(l.After(2)) && Region(l.After(2))
  {
    hide HasCleared, HasSkipped, HasTuned, Loop.Next, Loop.InRange;
    assert l.After(1) == l.After(0).Next() && l.After(2) == l.After(1).Next();
    RegionStep(l);
    SkipKeepsRegion(l.Next());
  }

  lemma {:induction false} CyclesKeepRegion(l: Loop, n: nat)
    requires Region(l) && Cycles(l, n)
    ensures Region(Cycled(l, n)) && (n > 0 ==> HasSkipped(Cycled(l, n)))
  {
    if n > 0 {
      hide Region, HasSkipped, Cycle, Loop.After;
      FewerCycles(l, n);
      CyclesKeepRegion(l, n - 1);
      assert Cycle(Cycled(l, n - 1));
      CycleEndsSkipped(Cycled(l, n - 1));
    }
  }

  /** In the region no swing lasts for 162 cycles: the error would outgrow it. */
  lemma SwingsEnd(l: Loop)
    requires Region(l) && Swings(l) && l.error != 0
    ensures !Cycles(l, 162)
  {
    hide Region, HasSkipped, Cycle, Loop.After, Swings;
    if Cycles(l, 162) {
      FewerCycles(l, 162);
      assert Gf2.Pow2(10) == 1024;
      SixteenCyclesDouble(l, 10);
      CyclesKeepRegion(l, 160);
      RegionInRange(Cycled(l, 160));
      assert false;
    }
  }

  lemma SwingOver(error: int, integral: int)
    requires error != 0 && if error > 0 then 0 <= integral <= error else error <= integral <= 0
    ensures var part := TruncDiv(integral, 20); var e, i := -(error + 2 * part), integral - 3 * part - error;
      && Abs(e) == Abs(error) + 2 * (Abs(integral) / 20) && Sign(e) == -Sign(error)
      && if e > 0 then 0 <= i <= e else e <= i <= 0
  {
  }

  /** A first error of 1000 ns is corrected to -50 ns and then, inside the dead
      band, thrown off by the same 1050 ns again. */
  lemma StaleCorrectionExample()
    ensures var l := PowerOn(1000);
      && Swings(l) && Cycles(l, 1)
      && l.After(1).error == -50 && Stale(l.After(1))
      && l.After(2).error == -1100
  {
    var l := PowerOn(1000);
    assert l.After(1) == l.After(0).Next() == Loop(-50, Fine(1000, Adjustment(1050, ADJUST_ADD)));
  }
}
