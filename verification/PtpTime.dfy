/** Timestamp arithmetic of ptp_sync.c. Signed overflow is undefined in C, so an
    operation whose exact result does not fit its type has the value None. */
module PtpTime {
  import opened CInt

  const NS_SEC_PERIOD := 1_000_000_000

  /** ptp_timestamp_t: 64-bit seconds and 32-bit nanoseconds, not normalised. */
  datatype Ts = Ts(seconds: int, nanosec: int) {
    /** The instant or interval the pair denotes, in nanoseconds. */
    function Value(): int {
      seconds * NS_SEC_PERIOD + nanosec
    }

    predicate Fits() {
      IsInt64(seconds) && IsInt32(nanosec)
    }

    /** What section 5.3.3 of IEEE 1588-2008 allows on the wire, and what the
        local counter holds. */
    predicate Normal() {
      0 <= seconds < TWO48 && 0 <= nanosec < NS_SEC_PERIOD
    }
  }

  const ZERO := Ts(0, 0)

  function Checked(t: Ts): Option<Ts> {
    if t.Fits() then Some(t) else None
  }

  function TimeAdd(a: Ts, b: Ts): Option<Ts> {
    Checked(Ts(a.seconds + b.seconds, a.nanosec + b.nanosec))
  }

  function TimeSub(a: Ts, b: Ts): Option<Ts> {
    var negated :- Checked(Ts(-b.seconds, -b.nanosec));
    TimeAdd(a, negated)
  }

  /** ptp_time_except_2: halve, carrying an odd second into the nanoseconds. */
  function Halve(t: Ts): Option<Ts> {
    if TruncMod(t.seconds, 2) == 0 then
      Checked(Ts(TruncDiv(t.seconds, 2), TruncDiv(t.nanosec, 2)))
    else
      var lower :- Checked(Ts(t.seconds - 1, t.nanosec));
      Checked(Ts(TruncDiv(lower.seconds, 2), TruncDiv(t.nanosec, 2) + NS_SEC_PERIOD / 2))
  }

  datatype Report = Report(synced: Ts, diff: Ts)

  function HalfSum(u: Ts, v: Ts): Option<Ts> {
    var sum :- TimeAdd(u, v);
    Halve(sum)
  }

  function HalfDifference(u: Ts, v: Ts): Option<Ts> {
    var difference :- TimeSub(u, v);
    Halve(difference)
  }

  /** The two halved sums of a Delay_Resp: path delay and clock offset. */
  function DelayAndOffset(t1: Ts, t2: Ts, t3: Ts, t4: Ts): Option<(Ts, Ts)> {
    var t2t1 :- TimeSub(t2, t1);
    var t4t3 :- TimeSub(t4, t3);
    var delay :- HalfSum(t2t1, t4t3);
    var offset :- HalfDifference(t2t1, t4t3);
    Some((delay, offset))
  }

  /** t3 + (delay - offset), which the sources take for the master's time. */
  function SyncedTime(delay: Ts, offset: Ts, t3: Ts): Option<Ts> {
    var propDelay :- TimeSub(delay, offset);
    TimeAdd(t3, propDelay)
  }

  /** Everything a Delay_Resp computes from the four timestamps and the clock. */
  function Evaluate(t1: Ts, t2: Ts, t3: Ts, t4: Ts, sys: Ts): Option<Report> {
    var (delay, offset) :- DelayAndOffset(t1, t2, t3, t4);
    var synced :- SyncedTime(delay, offset, t3);
    var diff :- TimeSub(synced, sys);
    Some(Report(synced, diff))
  }

  // ----- Halving

  /** The exact half that ptp_time_except_2 yields. */
  function Half(t: Ts): Ts {
    Ts(t.seconds / 2, TruncDiv(t.nanosec, 2) + if t.seconds % 2 == 0 then 0 else NS_SEC_PERIOD / 2)
  }

  /** Halving never overflows, and is off by at most half a nanosecond in value
      for every sign and parity, always on the side of the nanoseconds' sign. */
  lemma HalveValue(t: Ts)
    requires t.Fits()
    ensures Halve(t) == Some(Half(t))
    ensures 2 * Half(t).Value() == t.Value() - if t.nanosec % 2 == 0 then 0 else Sign(t.nanosec)
    ensures t.Value() % 2 == 0 ==> 2 * Half(t).Value() == t.Value()
  {
    var k := t.seconds / 2;
    var odd := t.seconds - 2 * k;
    assert t.Value() == 2 * (k * NS_SEC_PERIOD) + odd * NS_SEC_PERIOD + t.nanosec;
    TruncatedHalf(t.nanosec);
    if odd == 1 {
      assert TruncDiv(t.seconds - 1, 2) == k;
    }
  }

  lemma TruncatedHalf(n: int)
    ensures 2 * TruncDiv(n, 2) == n - if n % 2 == 0 then 0 else Sign(n)
    ensures IsInt32(n) ==> IsInt32(TruncDiv(n, 2) + NS_SEC_PERIOD / 2)
  {
  }

  // ----- Telescoping

  /** One nanosecond lost when the two halvings truncate in opposite directions. */
  function Nudge(t1: Ts, t2: Ts, t3: Ts, t4: Ts): int {
    var x := t2.nanosec - t1.nanosec;
    var y := t4.nanosec - t3.nanosec;
    if (x + y) % 2 != 0 && Abs(y) > Abs(x) then Sign(y) else 0
  }

  /** The closed form of a report: master receipt time of the Delay_Req, less at
      most one nanosecond, against the local clock. */
  function ClosedForm(t1: Ts, t2: Ts, t3: Ts, t4: Ts, sys: Ts): Report {
    var synced := Ts(t4.seconds, t4.nanosec - Nudge(t1, t2, t3, t4));
    Report(synced, Ts(synced.seconds - sys.seconds, synced.nanosec - sys.nanosec))
  }

  predicate AllNormal(t1: Ts, t2: Ts, t3: Ts, t4: Ts) {
    t1.Normal() && t2.Normal() && t3.Normal() && t4.Normal()
  }

  /** Bounds that one subtraction of normal timestamps meets. */
  predicate Small(t: Ts) {
    -TWO48 < t.seconds < TWO48 && Abs(t.nanosec) < NS_SEC_PERIOD
  }

  function Plus(a: Ts, b: Ts): Ts {
    Ts(a.seconds + b.seconds, a.nanosec + b.nanosec)
  }

  function Minus(a: Ts, b: Ts): Ts {
    Ts(a.seconds - b.seconds, a.nanosec - b.nanosec)
  }

  lemma SmallSub(a: Ts, b: Ts)
    requires a.Normal() && b.Normal()
    ensures TimeSub(a, b) == Some(Minus(a, b)) && Small(Minus(a, b))
  {
  }

  /** The halves of a sum and of a difference carry the same odd second, because
      the two second counts have the same parity; so the carries cancel. */
  lemma CarriesCancel(u: Ts, v: Ts)
    ensures Half(Plus(u, v)).seconds - Half(Minus(u, v)).seconds == v.seconds
    ensures Half(Plus(u, v)).nanosec - Half(Minus(u, v)).nanosec
         == TruncDiv(u.nanosec + v.nanosec, 2) - TruncDiv(u.nanosec - v.nanosec, 2)
  {
    assert u.seconds + v.seconds == (u.seconds - v.seconds) + 2 * v.seconds;
  }

  /** The two truncated halves differ by y, except for the nudge. */
  lemma HalvesTelescope(x: int, y: int)
    ensures TruncDiv(x + y, 2) - TruncDiv(x - y, 2)
         == y - if (x + y) % 2 != 0 && Abs(y) > Abs(x) then Sign(y) else 0
  {
  }

  lemma ClosedFormNormal(t1: Ts, t2: Ts, t3: Ts, t4: Ts, sys: Ts)
    requires AllNormal(t1, t2, t3, t4) && sys.Normal()
    ensures var r := ClosedForm(t1, t2, t3, t4, sys);
      && r.synced.Normal()
      && Abs(r.diff.nanosec) < NS_SEC_PERIOD
      && (r.diff.seconds == 0 <==> t4.seconds == sys.seconds)
  {
  }

  // ----- Any nanoseconds

  /** What ten bytes of a message can decode to: nothing bounds the nanoseconds. */
  predicate FromWire(t: Ts) {
    0 <= t.seconds < TWO48 && IsInt32(t.nanosec)
  }

  /** The two differences of nanoseconds, their sum and their difference, and the
      last subtraction fit 32 bits; so do the two counts that are negated. */
  predicate Computable(t1: Ts, t2: Ts, t3: Ts, t4: Ts, sys: Ts) {
    var x, y := t2.nanosec - t1.nanosec, t4.nanosec - t3.nanosec;
    && t1.nanosec > -TWO31 && IsInt32(x) && y > -TWO31
    && IsInt32(x + y) && IsInt32(x - y)
    && IsInt32(t4.nanosec - Nudge(t1, t2, t3, t4) - sys.nanosec)
  }

  /** An interval between a local and a wire timestamp. */
  predicate Wide(t: Ts) {
    -TWO48 < t.seconds < TWO48 && IsInt32(t.nanosec)
  }

  lemma WideSub(a: Ts, b: Ts)
    requires FromWire(a) && FromWire(b)
    ensures TimeSub(a, b) == if b.nanosec > -TWO31 && IsInt32(a.nanosec - b.nanosec) then Some(Minus(a, b)) else None
    ensures IsInt32(a.nanosec - b.nanosec) ==> Wide(Minus(a, b))
  {
  }

  lemma WideHalfSum(u: Ts, v: Ts)
    requires Wide(u) && Wide(v)
    ensures HalfSum(u, v) == if IsInt32(u.nanosec + v.nanosec) then Some(Half(Plus(u, v))) else None
  {
    if IsInt32(u.nanosec + v.nanosec) {
      HalveValue(Plus(u, v));
    }
    hide Halve, Half;
  }

  lemma WideHalfDifference(u: Ts, v: Ts)
    requires Wide(u) && Wide(v)
    ensures HalfDifference(u, v)
         == if v.nanosec > -TWO31 && IsInt32(u.nanosec - v.nanosec) then Some(Half(Minus(u, v))) else None
  {
    if IsInt32(u.nanosec - v.nanosec) {
      HalveValue(Minus(u, v));
    }
    hide Halve, Half;
  }

  /** The halves' difference is v again, less the nudge; with t3 it gives the receipt
      time whatever its nanoseconds are. */
  lemma WideSynced(t1: Ts, t2: Ts, t3: Ts, t4: Ts)
    requires FromWire(t1) && t2.Normal() && t3.Normal() && FromWire(t4)
    requires var u, v := Minus(t2, t1), Minus(t4, t3);
      Wide(u) && Wide(v) && IsInt32(u.nanosec + v.nanosec) && IsInt32(u.nanosec - v.nanosec)
    ensures var u, v := Minus(t2, t1), Minus(t4, t3);
      SyncedTime(Half(Plus(u, v)), Half(Minus(u, v)), t3)
      == Some(Ts(t4.seconds, t4.nanosec - Nudge(t1, t2, t3, t4)))
    ensures IsInt32(t4.nanosec - Nudge(t1, t2, t3, t4))
  {
    hide Half, SyncedTime, TruncDiv;
    var u, v := Minus(t2, t1), Minus(t4, t3);
    CarriesCancel(u, v);
    HalvesTelescope(u.nanosec, v.nanosec);
    HalfFits(Minus(u, v));
    SyncedAdds(Half(Plus(u, v)), Half(Minus(u, v)), t3);
  }

  lemma SyncedAdds(delay: Ts, offset: Ts, t3: Ts)
    requires Minus(ZERO, offset).Fits() && Minus(delay, offset).Fits() && Plus(t3, Minus(delay, offset)).Fits()
    ensures SyncedTime(delay, offset, t3) == Some(Plus(t3, Minus(delay, offset)))
  {
  }

  lemma HalfFits(t: Ts)
    requires -2 * TWO48 < t.seconds < 2 * TWO48 && IsInt32(t.nanosec)
    ensures -TWO48 <= Half(t).seconds < TWO48 && -TWO30 <= Half(t).nanosec < TWO31
  {
  }

  /** For every origin and receipt time that a message can carry: either some
      operation overflows, exactly when the condition fails, or the report has its
      closed form all the same. */
  lemma EvaluatesIff(t1: Ts, t2: Ts, t3: Ts, t4: Ts, sys: Ts)
    requires FromWire(t1) && t2.Normal() && t3.Normal() && FromWire(t4) && sys.Normal()
    ensures Evaluate(t1, t2, t3, t4, sys)
         == if Computable(t1, t2, t3, t4, sys) then Some(ClosedForm(t1, t2, t3, t4, sys)) else None
  {
    hide HalfSum, HalfDifference, Half, SyncedTime, Nudge;
    var u, v := Minus(t2, t1), Minus(t4, t3);
    WideSub(t2, t1);
    WideSub(t4, t3);
    if Wide(u) && Wide(v) {
      WideHalfSum(u, v);
      WideHalfDifference(u, v);
      if IsInt32(u.nanosec + v.nanosec) && IsInt32(u.nanosec - v.nanosec) {
        WideSynced(t1, t2, t3, t4);
        WideDiff(Ts(t4.seconds, t4.nanosec - Nudge(t1, t2, t3, t4)), sys);
      }
    }
    hide TimeSub;
  }

  lemma WideDiff(a: Ts, b: Ts)
    requires FromWire(a) && b.Normal()
    ensures TimeSub(a, b) == if IsInt32(a.nanosec - b.nanosec) then Some(Minus(a, b)) else None
  {
  }

  lemma NormalComputes(t1: Ts, t2: Ts, t3: Ts, t4: Ts, sys: Ts)
    requires AllNormal(t1, t2, t3, t4) && sys.Normal()
    ensures Computable(t1, t2, t3, t4, sys)
  {
  }

  /** For every four normal timestamps no 32-bit or 64-bit operation overflows and
      the report is its closed form: t1 and t2 matter by one nanosecond at most. */
  lemma Telescopes(t1: Ts, t2: Ts, t3: Ts, t4: Ts, sys: Ts)
    requires AllNormal(t1, t2, t3, t4) && sys.Normal()
    ensures Evaluate(t1, t2, t3, t4, sys) == Some(ClosedForm(t1, t2, t3, t4, sys))
  {
    hide Evaluate, ClosedForm, Computable;
    NormalComputes(t1, t2, t3, t4, sys);
    EvaluatesIff(t1, t2, t3, t4, sys);
  }

  /** The cancellation is needed: a delay and an offset that had taken different
      halving branches would overflow the 32-bit subtraction. */
  lemma MixedBranchesOverflow()
    ensures exists delay: Ts, offset: Ts ::
      Halve(Ts(1, 1_999_999_998)) == Some(delay) && Halve(Ts(0, -1_999_999_998)) == Some(offset)
      && TimeSub(delay, offset) == None
  {
    assert Halve(Ts(1, 1_999_999_998)) == Some(Ts(0, 1_499_999_999));
    assert Halve(Ts(0, -1_999_999_998)) == Some(Ts(0, -999_999_999));
    assert TimeSub(Ts(0, 1_499_999_999), Ts(0, -999_999_999)) == None;
  }

  // ----- What the report means against the standard

  /** The sums of two small intervals fit, and so do their halves. */
  lemma SmallHalves(u: Ts, v: Ts)
    requires Small(u) && Small(v)
    ensures HalfSum(u, v) == Some(Half(Plus(u, v)))
    ensures HalfDifference(u, v) == Some(Half(Minus(u, v)))
  {
    WideHalfSum(u, v);
    WideHalfDifference(u, v);
    hide HalfSum, HalfDifference, Half;
  }

  lemma DelayAndOffsetDefined(t1: Ts, t2: Ts, t3: Ts, t4: Ts)
    requires AllNormal(t1, t2, t3, t4)
    ensures DelayAndOffset(t1, t2, t3, t4)
         == Some((Half(Plus(Minus(t2, t1), Minus(t4, t3))), Half(Minus(Minus(t2, t1), Minus(t4, t3)))))
  {
    hide HalfSum, HalfDifference, Half, TimeSub;
    SmallSub(t2, t1);
    SmallSub(t4, t3);
    SmallHalves(Minus(t2, t1), Minus(t4, t3));
  }

  /** A master-to-slave path of d1, a slave-to-master path of d2 and a slave clock
      ahead by theta: the halved sums are the mean path delay and the offset from
      master of section 11.3 of IEEE 1588-2008, within half a nanosecond, and
      exactly when the path is symmetric. */
  lemma MeasuresPath(t1: Ts, t2: Ts, t3: Ts, t4: Ts, d1: int, d2: int, theta: int)
    requires AllNormal(t1, t2, t3, t4)
    requires t2.Value() == t1.Value() + d1 + theta
    requires t4.Value() == t3.Value() - theta + d2
    ensures DelayAndOffset(t1, t2, t3, t4).Some?
    ensures var (delay, offset) := DelayAndOffset(t1, t2, t3, t4).value;
      && Abs(2 * delay.Value() - (d1 + d2)) <= 1
      && Abs(2 * offset.Value() - (2 * theta + d1 - d2)) <= 1
      && (d1 == d2 ==> delay.Value() == d1 && offset.Value() == theta)
  {
    var u, v := Minus(t2, t1), Minus(t4, t3);
    DelayAndOffsetDefined(t1, t2, t3, t4);
    HalveValue(Plus(u, v));
    HalveValue(Minus(u, v));
    assert Plus(u, v).Value() == d1 + d2;
    assert Minus(u, v).Value() == 2 * theta + d1 - d2;
  }

  /** The reported difference is not the offset from master: it also contains
      `turnaround`, the time from the master's receipt of the Delay_Req to the
      slave's processing of the Delay_Resp, on both clocks' common time scale. */
  lemma ReportedDifference(t1: Ts, t2: Ts, t3: Ts, t4: Ts, sys: Ts, theta: int, turnaround: int)
    requires AllNormal(t1, t2, t3, t4) && sys.Normal()
    requires sys.Value() == t4.Value() + turnaround + theta
    ensures Evaluate(t1, t2, t3, t4, sys).Some?
    ensures var diff := Evaluate(t1, t2, t3, t4, sys).value.diff;
      && diff.Value() == -theta - turnaround - Nudge(t1, t2, t3, t4)
      && (Abs(diff.Value() + theta) <= 1 ==> Abs(turnaround) <= 2)
  {
    Telescopes(t1, t2, t3, t4, sys);
  }
}
