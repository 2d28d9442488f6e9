/** The timestamp unit driver, tsu_time.c: the fine-tune register and the reads and
    writes of a counter that keeps running between them. */
module Tsu {
  import opened CInt
  import opened PtpTime

  // ----- The adjustment register (tsu_time.h)

  const ADJUST_ADD := 0
  const ADJUST_SUBTRACT := 1

  /** 30 bits of magnitude, a reserved bit, and the direction in the top bit. */
  datatype Adjustment = Adjustment(nanosec: int, direction: int) {
    predicate Valid() {
      0 <= nanosec < TWO30 && direction in {ADJUST_ADD, ADJUST_SUBTRACT}
    }

    function Word(): int {
      nanosec + direction * TWO31
    }

    /** The signed shift that the hardware applies on a write of the word. */
    function Signed(): int {
      if direction == ADJUST_ADD then nanosec else -nanosec
    }
  }

  const NO_ADJUSTMENT := Adjustment(0, ADJUST_ADD)

  function FreqAdj(error: int, integrated: int): int {
    error + TruncDiv(integrated, 20)
  }

  /** No 32-bit operation of the fine tuning overflows. */
  predicate TuneDefined(error: int, integrated: int) {
    -TWO31 < FreqAdj(error, integrated) < TWO31
  }

  predicate DeadBand(error: int, integrated: int, boundary: int) {
    Abs(FreqAdj(error, integrated)) < boundary && error > -boundary
  }

  /** The register after tsu_clock_fine_tune. */
  function Tuned(register: Adjustment, error: int, integrated: int, boundary: int): Adjustment {
    var adj := FreqAdj(error, integrated);
    if DeadBand(error, integrated, boundary) then register
    else Adjustment(Abs(adj) % TWO30, if adj > 0 then ADJUST_ADD else ADJUST_SUBTRACT)
  }

  /** Outside the dead band the register decodes to the computed correction if and
      only if the correction fits 30 bits; otherwise a multiple of 2^30 is lost. */
  lemma TunedDecodes(register: Adjustment, error: int, integrated: int, boundary: int)
    requires !DeadBand(error, integrated, boundary)
    ensures var t := Tuned(register, error, integrated, boundary);
      && t.Valid()
      && (t.Signed() == FreqAdj(error, integrated) <==> Abs(FreqAdj(error, integrated)) < TWO30)
  {
  }

  /** The magnitudes a single report and a bounded integrator allow. */
  lemma TuneFits(error: int, integrated: int)
    requires Abs(error) < NS_SEC_PERIOD && Abs(integrated) <= 1_474_836_499
    ensures TuneDefined(error, integrated) && Abs(FreqAdj(error, integrated)) < TWO30
  {
  }

  /** The bound on the integrator is the last one: one more truncates the shift. */
  lemma TuneBoundIsTight()
    ensures Abs(FreqAdj(NS_SEC_PERIOD - 1, 1_474_836_500)) == TWO30
    ensures Tuned(NO_ADJUSTMENT, NS_SEC_PERIOD - 1, 1_474_836_500, 500).Signed() == 0
  {
  }

  /** The word determines the register. */
  lemma WordInjective(a: Adjustment, b: Adjustment)
    requires a.Valid() && b.Valid() && a.Word() == b.Word()
    ensures a == b
  {
  }

  /** What the device takes from the word: the top bit for the direction, the low 30
      bits for the shift. */
  lemma WordMeans(a: Adjustment)
    requires a.Valid()
    ensures 0 <= a.Word() < 0x1_0000_0000
    ensures a.Signed() == if a.Word() / 0x8000_0000 == 1 then -(a.Word() % 0x4000_0000) else a.Word() % 0x4000_0000
  {
  }

  /** The tuning leaves every register alone if and only if the correction is within
      the boundary and the error is not further than it below zero. */
  lemma KeptIff(error: int, integrated: int, boundary: int)
    ensures (forall r: Adjustment :: Tuned(r, error, integrated, boundary) == r)
       <==> -boundary < error + TruncDiv(integrated, 20) < boundary && error > -boundary
  {
    assert Tuned(Adjustment(0, 2), error, integrated, boundary) == Adjustment(0, 2)
      <==> DeadBand(error, integrated, boundary);
  }

  // ----- Reading and setting a running counter

  /** The two 32-bit registers behind a counter value in nanoseconds. */
  function SecRegister(counter: nat): nat {
    counter / NS_SEC_PERIOD % TWO32
  }

  function NsRegister(counter: nat): nat {
    counter % NS_SEC_PERIOD
  }

  /** tsu_get_time on the counter values at its three register reads. */
  function ThreeReads(v0: nat, v1: nat, v2: nat): Ts {
    Ts(SecRegister(v2), if SecRegister(v0) != SecRegister(v2) then 0 else NsRegister(v1))
  }

  /** However far the counter runs between the three reads, the result lies
      between its values at the first and the last; and it is the value at the
      middle read unless a second boundary was crossed. */
  lemma ReadLinearises(v0: nat, v1: nat, v2: nat)
    requires v0 <= v1 <= v2 < TWO32 * NS_SEC_PERIOD
    ensures var t := ThreeReads(v0, v1, v2);
      && t.Normal()
      && v0 <= t.Value() <= v2
      && (v0 / NS_SEC_PERIOD == v2 / NS_SEC_PERIOD ==> t.Value() == v1)
  {
    assert v0 / NS_SEC_PERIOD <= v1 / NS_SEC_PERIOD <= v2 / NS_SEC_PERIOD < TWO32;
  }

  /** Three counter values, in the order read. */
  datatype Reading = Reading(v0: nat, v1: nat, v2: nat) {
    predicate Ordered() {
      v0 <= v1 <= v2 < TWO32 * NS_SEC_PERIOD
    }

    function Result(): Ts {
      ThreeReads(v0, v1, v2)
    }
  }

  /** Reads that follow one another never go backwards. */
  lemma {:induction false} ReadsAreMonotone(rs: seq<Reading>, i: nat, j: nat)
    requires forall k :: 0 <= k < |rs| ==> rs[k].Ordered()
    requires forall k :: 0 <= k < |rs| - 1 ==> rs[k].v2 <= rs[k + 1].v0
    requires i <= j < |rs|
    ensures rs[i].Result().Value() <= rs[j].Result().Value()
    ensures i < j ==> rs[i].v2 <= rs[j].v0
    decreases j - i
  {
    ReadLinearises(rs[i].v0, rs[i].v1, rs[i].v2);
    ReadLinearises(rs[j].v0, rs[j].v1, rs[j].v2);
    if i + 1 < j {
      ReadsAreMonotone(rs, i + 1, j);
      assert rs[i + 1].Ordered();
    }
  }

  /** print_tsu_local_time reads each register once: its pair lies between the two
      counter values if and only if they share the second. */
  lemma PlainReadTears(v0: nat, v1: nat)
    requires v0 <= v1 < TWO32 * NS_SEC_PERIOD && v1 - v0 < NS_SEC_PERIOD
    ensures v0 <= Ts(SecRegister(v0), NsRegister(v1)).Value() <= v1
       <==> v0 / NS_SEC_PERIOD == v1 / NS_SEC_PERIOD
  {
  }

  /** tsu_set_time writes the nanoseconds, then 32 bits of seconds `gap` later: the
      counter is the requested time plus the gap if and only if the seconds fit and
      the nanoseconds do not wrap in between; each wrap costs one second. */
  function AfterSet(ts: Ts, gap: nat): nat
    requires 0 <= ts.nanosec < NS_SEC_PERIOD
  {
    ToUint32(ts.seconds) * NS_SEC_PERIOD + (ts.nanosec + gap) % NS_SEC_PERIOD
  }

  lemma SetLosesWraps(ts: Ts, gap: nat)
    requires 0 <= ts.seconds && 0 <= ts.nanosec < NS_SEC_PERIOD
    ensures AfterSet(ts, gap) == ts.Value() + gap
                                 - (ts.nanosec + gap) / NS_SEC_PERIOD * NS_SEC_PERIOD
                                 - ts.seconds / TWO32 * TWO32 * NS_SEC_PERIOD
    ensures AfterSet(ts, gap) == ts.Value() + gap <==> ts.seconds < TWO32 && ts.nanosec + gap < NS_SEC_PERIOD
  {
  }

  /** How far the counter runs between the register accesses: after the first and the
      second read of a time, and after the first write of one. */
  datatype Pace = Pace(d1: nat, d2: nat, gap: nat)

  function NowAt(counter: nat, pace: Pace): (t: Ts)
    ensures 0 <= t.nanosec < NS_SEC_PERIOD
  {
    ThreeReads(counter, counter + pace.d1, counter + pace.d1 + pace.d2)
  }

  /** The driver's static variables, and the device behind its registers. */
  class Driver {
    var fineTune: Adjustment
    var uptime: int
    var counter: nat

    ghost predicate Valid()
      reads this
    {
      fineTune.Valid() && IsUint32(uptime)
    }

    constructor ()
      ensures Valid() && fineTune == NO_ADJUSTMENT && uptime == 0 && counter == 0
    {
      fineTune, uptime, counter := NO_ADJUSTMENT, 0, 0;
    }

    /** The device: time passes. */
    method Elapse(d: nat)
      modifies this`counter
      ensures counter == old(counter) + d
    {
      counter := counter + d;
    }

    /** The reads are `d1` and `d2` nanoseconds apart. */
    method GetTime(d1: nat, d2: nat) returns (t: Ts)
      modifies this`counter
      ensures 0 <= t.nanosec < NS_SEC_PERIOD
      ensures counter == old(counter) + d1 + d2
      ensures t == ThreeReads(old(counter), old(counter) + d1, counter)
      ensures counter < TWO32 * NS_SEC_PERIOD ==> t.Normal() && old(counter) <= t.Value() <= counter
    {
      ghost var v0 := counter;
      var first := SecRegister(counter);
      Elapse(d1);
      ghost var v1 := counter;
      var nsec := NsRegister(counter);
      Elapse(d2);
      var second := SecRegister(counter);
      if first != second {
        nsec := 0;
      }
      t := Ts(second, nsec);
      if counter < TWO32 * NS_SEC_PERIOD {
        ReadLinearises(v0, v1, counter);
      }
    }

    method SetTime(ts: Ts, gap: nat)
      requires 0 <= ts.nanosec < NS_SEC_PERIOD
      modifies this`counter
      ensures counter == AfterSet(ts, gap)
    {
      counter := counter / NS_SEC_PERIOD * NS_SEC_PERIOD + ts.nanosec;
      Elapse(gap);
      assert counter % NS_SEC_PERIOD == (ts.nanosec + gap) % NS_SEC_PERIOD;
      counter := ToUint32(ts.seconds) * NS_SEC_PERIOD + counter % NS_SEC_PERIOD;
    }

    method ClockFineTune(error: int, integrated: int, boundary: int)
      requires Valid() && TuneDefined(error, integrated)
      modifies this`fineTune
      ensures Valid() && fineTune == Tuned(old(fineTune), error, integrated, boundary)
    {
      var freqAdj := error + TruncDiv(integrated, 20);
      var magnitude := Abs(freqAdj);
      if magnitude < boundary && error > -boundary {
        return;
      }
      fineTune := fineTune.(direction := if freqAdj > 0 then ADJUST_ADD else ADJUST_SUBTRACT);
      fineTune := fineTune.(nanosec := magnitude % TWO30);
    }

    /** Counts a tick and writes the register, whatever it holds, once more. */
    method Systick()
      requires Valid()
      modifies this`uptime, this`counter
      ensures Valid() && uptime == (old(uptime) + 1) % TWO32
      ensures old(counter) + fineTune.Signed() >= 0 ==> counter == old(counter) + fineTune.Signed()
    {
      uptime := ToUint32(uptime + 1);
      var shifted := counter + fineTune.Signed();
      counter := if shifted < 0 then 0 else shifted;
    }
  }
}
