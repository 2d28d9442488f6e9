/** The synchronisation state machine of timesync.c and its PPS filter. */
module Timesync {
  import opened CInt
  import opened PtpTime
  import opened Tsu

  const RESYNC_COARSE_TIME := 60
  const PPS_PERIOD_HIGH := 1050
  const PPS_PERIOD_LOW := 950
  const PPS_LATENCY_CORRECTION_NS := 1200
  const COARSE_TIME_AGE_MAX := 1000
  const SYNC_DIFF_BOUNDARY_NS := 10000
  const PPS_CORRECTION_BOUNDARY := 50

  datatype Status = Never | Coarse | Fine | Lost

  /** The file's static variables. */
  datatype Sync = Sync(status: Status, coarseOk: bool, lastValue: int, lastStamp: int,
                       ppsStamp: int, counter: int, diff: int, average: int)

  const INITIAL := Sync(Never, false, 0, 0, 0, 0, 0, 0)

  /** A callback, with what it reads of the uptime and of the running clock. */
  datatype Event =
    | CoarseTime(timestamp: int, nanoseconds: int, uptime: int, now: Ts)
    | FineTime(timestamp: int, nanoseconds: int)
    | Pps(uptime: int, now: Ts)
    | CoarseTimeout
    | FineTimeout
    | ErrorReport(error: int, average: int)

  /** What a callback does to the clock. */
  datatype Effect = NoEffect | HardSet(time: Ts) | Tune(error: int)

  // ----- The callbacks as functions of the state

  predicate Resyncs(s: Sync) {
    s.status in {Never, Lost} || (s.status == Coarse && s.counter + 1 > RESYNC_COARSE_TIME)
  }

  function OnCoarse(s: Sync, timestamp: int, nanoseconds: int, uptime: int, now: Ts): (Sync, Effect) {
    var noted := s.(coarseOk := true, lastValue := timestamp, lastStamp := uptime);
    if !Resyncs(s) then (noted.(counter := if s.status == Coarse then s.counter + 1 else s.counter), NoEffect)
    else (noted.(counter := 0, status := Coarse),
          if timestamp > 0 then HardSet(Ts(timestamp, if nanoseconds > 0 then nanoseconds else now.nanosec))
          else NoEffect)
  }

  function OnFine(s: Sync, timestamp: int, nanoseconds: int): (Sync, Effect) {
    (s.(status := Fine), if timestamp > 0 then HardSet(Ts(timestamp, nanoseconds)) else NoEffect)
  }

  /** Milliseconds since the last pulse: an unsigned difference read as signed. */
  function Age(now: int, before: int): int {
    ToInt32(now - before)
  }

  /** The distance of the pulse from the nearest second, folded to half a second. */
  function Folded(nanosec: int): int {
    var d := nanosec - PPS_LATENCY_CORRECTION_NS;
    if d > 500_000_000 then d - NS_SEC_PERIOD else d
  }

  predicate InBounds(d: int) {
    -SYNC_DIFF_BOUNDARY_NS <= d <= SYNC_DIFF_BOUNDARY_NS
  }

  /** One step of the running average. */
  function Smoothed(average: int, d: int): int {
    average - TruncDiv(average - d, 10)
  }

  function OnPps(s: Sync, uptime: int, now: Ts): (Sync, Effect) {
    var stamped := s.(ppsStamp := uptime);
    if !(PPS_PERIOD_LOW <= Age(uptime, s.ppsStamp) <= PPS_PERIOD_HIGH) then (stamped, NoEffect)
    else if s.status == Coarse then (stamped.(status := Fine), NoEffect)
    else if s.status != Fine then (stamped, NoEffect)
    else
      var d := Folded(now.nanosec);
      if InBounds(d) then
        var average := Smoothed(s.average, d);
        (stamped.(diff := d, average := average), Tune(average))
      else if Age(uptime, s.lastStamp) >= COARSE_TIME_AGE_MAX then (stamped.(diff := d), NoEffect)
      else (stamped.(diff := d, average := 0),
            HardSet(Ts(ToUint32(s.lastValue + 1), PPS_LATENCY_CORRECTION_NS)))
  }

  function OnCoarseTimeout(s: Sync): Sync {
    s.(status := if s.status == Coarse then Lost else s.status, coarseOk := false)
  }

  function OnFineTimeout(s: Sync): Sync {
    if s.status == Fine then s.(status := if s.coarseOk then Coarse else Lost) else s
  }

  function Step(s: Sync, e: Event): (Sync, Effect) {
    match e
    case CoarseTime(t, ns, up, now) => OnCoarse(s, t, ns, up, now)
    case FineTime(t, ns) => OnFine(s, t, ns)
    case Pps(up, now) => OnPps(s, up, now)
    case CoarseTimeout => (OnCoarseTimeout(s), NoEffect)
    case FineTimeout => (OnFineTimeout(s), NoEffect)
    case ErrorReport(err, avg) => (s.(diff := err, average := avg), NoEffect)
  }

  function Run(s: Sync, es: seq<Event>): Sync {
    if es == [] then s else Step(Run(s, es[..|es| - 1]), es[|es| - 1]).0
  }

  // ----- The callbacks as the source runs them

  /** The counter after an effect on a clock that showed `before`. */
  function Shown(effect: Effect, before: nat, pace: Pace): nat
    requires effect.HardSet? ==> 0 <= effect.time.nanosec < NS_SEC_PERIOD
  {
    if effect.HardSet? then AfterSet(effect.time, pace.gap) else before
  }

  predicate OnTime(s: Sync, uptime: int) {
    PPS_PERIOD_LOW <= Age(uptime, s.ppsStamp) <= PPS_PERIOD_HIGH
  }

  /** A pulse on time in fine sync is the only one that reads the clock. */
  function ReadingTime(s: Sync, uptime: int, pace: Pace): nat {
    if OnTime(s, uptime) && s.status == Fine then pace.d1 + pace.d2 else 0
  }

  class Callbacks {
    const driver: Driver
    var status: Status
    var coarseOk: bool
    var lastValue: int
    var lastStamp: int
    var ppsStamp: int
    var counter: int
    var diff: int
    var average: int
    /** Everything asked of the clock so far. */
    var effects: seq<Effect>

    ghost function Model(): Sync
      reads this
    {
      Sync(status, coarseOk, lastValue, lastStamp, ppsStamp, counter, diff, average)
    }

    ghost predicate Valid()
      reads this, driver
    {
      Inv(Model()) && driver.Valid()
    }

    constructor (driver: Driver)
      requires driver.Valid()
      ensures Valid() && Model() == INITIAL && effects == [] && this.driver == driver
    {
      this.driver := driver;
      status, coarseOk := Never, false;
      lastValue, lastStamp, ppsStamp, counter, diff, average := 0, 0, 0, 0, 0, 0;
      effects := [];
    }

    method CoarseTimeReceived(timestamp: int, nanoseconds: int, pace: Pace)
      requires Valid() && 0 <= nanoseconds < NS_SEC_PERIOD
      modifies this, driver`counter
      ensures Valid()
      ensures var now := NowAt(old(driver.counter), pace);
        var (s, f) := OnCoarse(old(Model()), timestamp, nanoseconds, driver.uptime, now);
        && Model() == s && effects == old(effects) + [f]
        && (f.HardSet? ==> 0 <= f.time.nanosec < NS_SEC_PERIOD)
        && driver.counter == Shown(f, old(driver.counter), pace)
    {
      hide AfterSet, ThreeReads;
      coarseOk := true;
      lastValue := timestamp;
      lastStamp := driver.uptime;
      var effect := NoEffect;
      var resync := status == Never || status == Lost;
      if !resync && status == Coarse {
        counter := counter + 1;
        resync := counter > RESYNC_COARSE_TIME;
      }
      if resync {
        if timestamp > 0 {
          var nanosec := nanoseconds;
          if nanoseconds <= 0 {
            var now := driver.GetTime(pace.d1, pace.d2);
            nanosec := now.nanosec;
          }
          driver.SetTime(Ts(timestamp, nanosec), pace.gap);
          effect := HardSet(Ts(timestamp, nanosec));
        }
        counter := 0;
        if status != Fine {
          status := Coarse;
        }
      }
      effects := effects + [effect];
    }

    method FineTimeReceived(timestamp: int, nanoseconds: int, pace: Pace)
      requires Valid() && (timestamp > 0 ==> 0 <= nanoseconds < NS_SEC_PERIOD)
      modifies this, driver`counter
      ensures Valid()
      ensures var (s, f) := OnFine(old(Model()), timestamp, nanoseconds);
        && Model() == s && effects == old(effects) + [f]
        && driver.counter == Shown(f, old(driver.counter), pace)
      ensures status == Fine
      ensures effects == old(effects) + [if timestamp > 0 then HardSet(Ts(timestamp, nanoseconds)) else NoEffect]
    {
      var effect := NoEffect;
      if timestamp > 0 {
        driver.SetTime(Ts(timestamp, nanoseconds), pace.gap);
        effect := HardSet(Ts(timestamp, nanoseconds));
      }
      effects := effects + [effect];
      status := Fine;
    }

    /** When the filter's step is taken its subtraction has to fit 32 bits. */
    method PpsReceived(pace: Pace)
      requires Valid()
      requires var d := Folded(NowAt(driver.counter, pace).nanosec);
        status == Fine && InBounds(d) ==> IsInt32(average) && IsInt32(average - d)
      modifies this, driver`counter, driver`fineTune
      ensures Valid()
      ensures var (s, f) := OnPps(old(Model()), driver.uptime, NowAt(old(driver.counter), pace));
        && Model() == s && effects == old(effects) + [f]
        && driver.counter == Shown(f, old(driver.counter) + ReadingTime(old(Model()), driver.uptime, pace), pace)
        && driver.fineTune == (if f.Tune? then Tuned(old(driver.fineTune), f.error, 0, 50)
                               else old(driver.fineTune))
    {
      hide AfterSet, ThreeReads, Age, Tuned;
      var age := Age(driver.uptime, ppsStamp);
      ppsStamp := driver.uptime;
      effects := effects + [NoEffect];
      if age < PPS_PERIOD_LOW || age > PPS_PERIOD_HIGH {
        return;
      }
      var last := |effects| - 1;
      if status == Fine {
        var now := driver.GetTime(pace.d1, pace.d2);
        diff := now.nanosec - PPS_LATENCY_CORRECTION_NS;
        if diff > 500_000_000 {
          diff := diff - NS_SEC_PERIOD;
        }
        if diff < -SYNC_DIFF_BOUNDARY_NS || diff > SYNC_DIFF_BOUNDARY_NS {
          if Age(driver.uptime, lastStamp) >= COARSE_TIME_AGE_MAX {
            return;
          }
          var time := Ts(ToUint32(lastValue + 1), PPS_LATENCY_CORRECTION_NS);
          driver.SetTime(time, pace.gap);
          effects := effects[last := HardSet(time)];
          average := 0;
        } else {
          average := average - TruncDiv(average - diff, 10);
          driver.ClockFineTune(average, 0, PPS_CORRECTION_BOUNDARY);
          effects := effects[last := Tune(average)];
        }
      }
      if status == Coarse {
        status := Fine;
      }
    }

    method CoarseTimeoutExpired()
      requires Valid()
      modifies this
      ensures Valid() && Model() == OnCoarseTimeout(old(Model())) && effects == old(effects)
    {
      if status == Coarse {
        status := Lost;
      }
      coarseOk := false;
    }

    method FineTimeoutExpired()
      requires Valid()
      modifies this
      ensures Valid() && Model() == OnFineTimeout(old(Model())) && effects == old(effects)
    {
      if status == Fine {
        status := if coarseOk then Coarse else Lost;
      }
    }

    method UpdateError(error: int, avg: int)
      requires Valid()
      modifies this
      ensures Valid() && Model() == old(Model()).(diff := error, average := avg) && effects == old(effects)
    {
      diff := error;
      average := avg;
    }
  }

  // ----- Invariants of every run

  predicate Inv(s: Sync) {
    && (s.status == Coarse ==> s.coarseOk)
    && (s.status in {Never, Lost} ==> !s.coarseOk)
    && 0 <= s.counter <= RESYNC_COARSE_TIME
  }

  /** Under every interleaving of the callbacks: coarse sync means that the coarse
      service is alive, never-synced and lost mean that it is not, and the resync
      counter stays within its period. */
  lemma {:induction false} RunKeepsInv(es: seq<Event>)
    ensures var s := Run(INITIAL, es);
      && (s.status == Coarse ==> s.coarseOk)
      && (s.status in {Never, Lost} ==> !s.coarseOk)
      && 0 <= s.counter <= 60
  {
    if es != [] {
      RunKeepsInv(es[..|es| - 1]);
    }
  }

  /** Once left, the never-synced state is never entered again. */
  lemma {:induction false} NeverIsLeftForGood(s: Sync, es: seq<Event>)
    requires s.status != Never
    ensures Run(s, es).status != Never
  {
    if es != [] {
      NeverIsLeftForGood(s, es[..|es| - 1]);
    }
  }

  /** Only coarse receptions move the counter. */
  lemma OnlyCoarseCounts(s: Sync, e: Event)
    requires !e.CoarseTime?
    ensures Step(s, e).0.counter == s.counter
  {
  }

  /** Without sync a coarse time always sets the clock, if it is positive, and starts
      coarse sync; without nanoseconds it keeps those that the clock shows. */
  lemma CoarseStartsSync(s: Sync, timestamp: int, nanoseconds: int, uptime: int, now: Ts)
    requires s.status in {Never, Lost}
    ensures var (t, effect) := Step(s, CoarseTime(timestamp, nanoseconds, uptime, now));
      && t.status == Coarse && t.counter == 0
      && effect == if timestamp > 0 then HardSet(Ts(timestamp, if nanoseconds > 0 then nanoseconds else now.nanosec))
                   else NoEffect
  {
  }

  // ----- Timeouts

  /** A coarse reception since which the coarse service has not timed out. */
  predicate Alive(es: seq<Event>, i: nat)
    requires i < |es|
  {
    es[i].CoarseTime? && forall j :: i < j < |es| ==> !es[j].CoarseTimeout?
  }

  lemma {:induction false} ServiceIsAlive(es: seq<Event>)
    ensures Run(INITIAL, es).coarseOk <==> exists i: nat :: i < |es| && Alive(es, i)
  {
    if es != [] {
      var n := |es| - 1;
      ServiceIsAlive(es[..n]);
      hide Run;
      RunStep(INITIAL, es);
      if es[n].CoarseTime? {
        assert Alive(es, n);
      } else {
        forall i: nat | i < n ensures Alive(es, i) <==> Alive(es[..n], i) && !es[n].CoarseTimeout? {
          assert forall j :: 0 <= j < n ==> es[..n][j] == es[j];
        }
      }
    }
  }

  lemma RunStep(s: Sync, es: seq<Event>)
    requires es != []
    ensures Run(s, es) == Step(Run(s, es[..|es| - 1]), es[|es| - 1]).0
  {
  }

  /** On every run a fine timeout in fine sync falls back to coarse sync if some coarse
      reception has not been followed by a coarse timeout, and loses sync otherwise;
      a coarse timeout loses coarse sync; neither does anything in another state. */
  lemma TimeoutsFallBack(es: seq<Event>)
    ensures var s, fine := Run(INITIAL, es), Run(INITIAL, es + [FineTimeout]);
      fine.status == if s.status != Fine then s.status
                     else if exists i: nat :: i < |es| && Alive(es, i) then Coarse else Lost
    ensures var s, coarse := Run(INITIAL, es), Run(INITIAL, es + [CoarseTimeout]);
      coarse.status == if s.status == Coarse then Lost else s.status
  {
    hide Run;
    ServiceIsAlive(es);
    assert (es + [FineTimeout])[..|es|] == es && (es + [CoarseTimeout])[..|es|] == es;
    RunStep(INITIAL, es + [FineTimeout]);
    RunStep(INITIAL, es + [CoarseTimeout]);
  }

  // ----- What a pulse does

  predicate LatestCoarse(es: seq<Event>, i: nat) {
    i < |es| && es[i].CoarseTime? && forall j :: i < j < |es| ==> !es[j].CoarseTime?
  }

  predicate LatestPps(es: seq<Event>, i: nat) {
    i < |es| && es[i].Pps? && forall j :: i < j < |es| ==> !es[j].Pps?
  }

  /** The state remembers the latest coarse reception and the latest pulse. */
  lemma {:induction false} Remembers(es: seq<Event>, c: nat, p: nat)
    requires LatestCoarse(es, c) || LatestPps(es, p)
    ensures LatestCoarse(es, c) ==>
      Run(INITIAL, es).lastValue == es[c].timestamp && Run(INITIAL, es).lastStamp == es[c].uptime
    ensures LatestPps(es, p) ==> Run(INITIAL, es).ppsStamp == es[p].uptime
    decreases |es|
  {
    var n := |es| - 1;
    RunStep(INITIAL, es);
    hide Run;
    if (LatestCoarse(es, c) && c < n) || (LatestPps(es, p) && p < n) {
      assert forall j :: 0 <= j < n ==> es[..n][j] == es[j];
      Remembers(es[..n], c, p);
    }
  }

  /** On every run a pulse acts in fine sync only, and only 950 to 1050 ms after the
      one before. More than 10 us off the second, the clock is set to 1200 ns into the
      second after the latest coarse time, if that is less than 1000 ms old; within
      10 us it is tuned for the average, which moves a tenth of the way. Otherwise
      nothing is done. A pulse on time takes coarse sync to fine sync. */
  lemma PulseActs(es: seq<Event>, c: nat, p: nat, uptime: int, now: Ts)
    requires LatestCoarse(es, c) && LatestPps(es, p)
    ensures var s, (t, effect) := Run(INITIAL, es), Step(Run(INITIAL, es), Pps(uptime, now));
      var off := if now.nanosec - 1200 > 500_000_000 then now.nanosec - 1_000_001_200 else now.nanosec - 1200;
      var onTime := 950 <= ToInt32(uptime - es[p].uptime) <= 1050;
      var average := s.average - TruncDiv(s.average - off, 10);
      && (effect.HardSet? <==>
            s.status == Fine && onTime && Abs(off) > 10_000 && ToInt32(uptime - es[c].uptime) < 1000)
      && (effect.HardSet? ==>
            effect.time == Ts(ToUint32(es[c].timestamp + 1), 1200) && t.average == 0 && t.diff == off)
      && (effect.Tune? <==> s.status == Fine && onTime && Abs(off) <= 10_000)
      && (effect.Tune? ==> effect.error == t.average == average && t.diff == off)
      && t.status == (if s.status == Coarse && onTime then Fine else s.status)
      && t.ppsStamp == uptime
  {
    Remembers(es, c, p);
    hide Run;
  }

  // ----- Resynchronisation counting

  /** How often the clock is hard-set along a run. */
  function HardSets(s: Sync, es: seq<Event>): nat {
    if es == [] then 0
    else
      var n := |es| - 1;
      HardSets(s, es[..n]) + if Step(Run(s, es[..n]), es[n]).1.HardSet? then 1 else 0
  }

  /** n coarse receptions in coarse sync, the first with counter c, hard-set the
      clock exactly (c + n) / 61 times and leave the counter at (c + n) % 61. */
  lemma {:induction false} ResyncCount(s: Sync, es: seq<Event>)
    requires s.status == Coarse && 0 <= s.counter <= 60
    requires forall i :: 0 <= i < |es| ==> es[i].CoarseTime? && es[i].timestamp > 0
    ensures HardSets(s, es) == (s.counter + |es|) / 61
    ensures Run(s, es).status == Coarse && Run(s, es).counter == (s.counter + |es|) % 61
  {
    if es != [] {
      var n := |es| - 1;
      ResyncCount(s, es[..n]);
      assert es[n].CoarseTime? && es[n].timestamp > 0;
    }
  }

  // ----- When the PTP servo is the only driver

  /** The callbacks that ptp_process_time_diff makes. */
  predicate FromServo(e: Event) {
    e.CoarseTime? || (e.FineTime? && e.timestamp == 0) || e.ErrorReport?
  }

  /** With the servo as the only driver, fine sync is final and no event after the
      first fine report sets the clock. */
  lemma {:induction false} FineIsAbsorbing(s: Sync, es: seq<Event>)
    requires s.status == Fine && forall i :: 0 <= i < |es| ==> FromServo(es[i])
    ensures Run(s, es).status == Fine && HardSets(s, es) == 0 && Run(s, es).counter == s.counter
  {
    if es != [] {
      var n := |es| - 1;
      FineIsAbsorbing(s, es[..n]);
      assert FromServo(es[n]);
    }
  }

  // ----- The PPS filter

  /** The folded difference lies within half a second and is congruent to the time
      since the pulse. */
  lemma FoldedRange(nanosec: int)
    requires 0 <= nanosec < NS_SEC_PERIOD
    ensures -500_000_000 < Folded(nanosec) <= 500_000_000
    ensures (Folded(nanosec) - (nanosec - PPS_LATENCY_CORRECTION_NS)) % NS_SEC_PERIOD == 0
  {
  }

  /** A step moves the average toward the sample by a tenth of the distance,
      rounded down, and never past it. */
  lemma SmoothedApproaches(average: int, d: int)
    ensures var next := Smoothed(average, d);
      && Abs(next - d) == Abs(average - d) - Abs(average - d) / 10
      && (average <= d ==> average <= next <= d)
      && (d <= average ==> d <= next <= average)
  {
  }

  predicate NoErrorReports(es: seq<Event>) {
    forall i :: 0 <= i < |es| ==> !es[i].ErrorReport?
  }

  /** While no error is reported from outside, the average stays within the bound
      whatever the callbacks are. */
  lemma {:induction false} AverageStaysBounded(s: Sync, es: seq<Event>)
    requires InBounds(s.average) && NoErrorReports(es)
    ensures InBounds(Run(s, es).average)
  {
    if es != [] {
      var n := |es| - 1;
      AverageStaysBounded(s, es[..n]);
      assert !es[n].ErrorReport?;
      if es[n].Pps? {
        SmoothedApproaches(Run(s, es[..n]).average, Folded(es[n].now.nanosec));
      }
    }
  }

  function SmoothedTimes(average: int, d: int, n: nat): int {
    if n == 0 then average else Smoothed(SmoothedTimes(average, d, n - 1), d)
  }

  /** On a constant sample the distance falls below ten within as many steps as the
      distance is long, and then never changes: the filter's residual error. */
  lemma {:induction false} SmoothedSettles(average: int, d: int, n: nat)
    ensures var left := Abs(SmoothedTimes(average, d, n) - d);
      && (left < 10 || left <= Abs(average - d) - n)
      && (Abs(average - d) < 10 ==> SmoothedTimes(average, d, n) == average)
      && (n >= Abs(average - d) ==> left < 10)
  {
    if n > 0 {
      SmoothedSettles(average, d, n - 1);
      SmoothedApproaches(SmoothedTimes(average, d, n - 1), d);
    }
  }
}
