/** Interpreter and servo together: what a run of messages does to the slave's clock
    when the PTP servo is the only one to drive it. */
module SlaveClock {
  import opened CInt
  import opened PtpTime
  import opened PtpWire
  import opened PtpSync
  import opened Tsu
  import opened ClockLoop
  import Timesync

  /** Uptime and counter when the servo handles a message, and the counter's pace
      while it reads or sets the clock. */
  datatype Reading = Reading(uptime: int, counter: nat, pace: Pace) {
    function Now(): (t: Ts)
      ensures 0 <= t.nanosec < NS_SEC_PERIOD
    {
      NowAt(counter, pace)
    }
  }

  /** The last message of a run is a Delay_Resp. */
  predicate EndsInResponse(es: seq<Event>)
    requires AllArriving(es)
  {
    es != [] && es[|es| - 1].Kind() == DELAY_RESP
  }

  /** The servo after a run of messages: every report is served as it is made. It is
      undefined from the first overflow on, the interpreter's or its own. */
  function ClockAfter(es: seq<Event>, rs: seq<Reading>): Clock
    requires AllArriving(es) && |es| == |rs|
  {
    if es == [] then POWER_ON
    else
      var n := |es| - 1;
      var before := ClockAfter(es[..n], rs[..n]);
      if !EndsInResponse(es) then before
      else if ComputableAt(es, n) then Serve(before, ReportAt(es, n), rs[n].uptime, rs[n].Now()).0
      else before.(defined := false)
  }

  /** What message i does to the clock. */
  function ActionAt(es: seq<Event>, rs: seq<Reading>, i: nat): Action
    requires AllArriving(es) && |es| == |rs| && i < |es|
  {
    if es[i].Kind() == DELAY_RESP && ComputableAt(es, i) then
      Serve(ClockAfter(es[..i], rs[..i]), ReportAt(es, i), rs[i].uptime, rs[i].Now()).1
    else Nothing
  }

  /** The reports served are those that the interpreter makes. */
  lemma ServesWhatIsReported(es: seq<Event>)
    requires AllArriving(es) && AllComputable(es) && EndsInResponse(es)
    ensures var made := Run(es).reports; made != [] && made[|made| - 1] == ReportAt(es, |es| - 1)
  {
    hide Run, ReportAt, AllComputable;
    StepReports(es);
  }

  /** A Delay_Resp handled in the very second in which the master received the
      Delay_Req: the servo takes any other for an error of whole seconds. */
  predicate SameSecond(e: Event) {
    e.Arriving() && e.Kind() == DELAY_RESP && Stamp(e.msg).seconds == e.now.seconds
  }

  predicate SameSecondIn(es: seq<Event>) {
    exists i :: 0 <= i < |es| && SameSecond(es[i])
  }

  lemma ReportIs(es: seq<Event>, i: nat)
    requires AllArriving(es) && i < |es| && es[i].Kind() == DELAY_RESP
    ensures var r, t4 := ReportAt(es, i), Stamp(es[i].msg);
      && r.synced.seconds == t4.seconds && Abs(r.synced.nanosec - t4.nanosec) <= 1
      && (t4.Normal() ==> r.synced.Normal() && Abs(r.diff.nanosec) < NS_SEC_PERIOD)
      && (r.diff.seconds == 0 <==> SameSecond(es[i]))
  {
    hide Stamp, Origin, SyncArrival, SendTime;
    assert es[i].Arriving();
    TimesFromWire(es[..i]);
    NudgeIsSmall(Origin(es[..i]), SyncArrival(es[..i]), SendTime(es[..i]), Stamp(es[i].msg), es[i].now);
  }

  lemma NudgeIsSmall(t1: Ts, t2: Ts, t3: Ts, t4: Ts, sys: Ts)
    requires t3.Normal() && sys.Normal()
    ensures Abs(Nudge(t1, t2, t3, t4)) <= 1
    ensures var r := ClosedForm(t1, t2, t3, t4, sys);
      t4.Normal() ==> r.synced.Normal() && Abs(r.diff.nanosec) < NS_SEC_PERIOD
  {
  }

  // ----- When the servo's behaviour is defined

  /** The sum of the differences since the last report of whole seconds. */
  function SinceCoarse(es: seq<Event>): int
    requires AllArriving(es)
  {
    if es == [] then 0
    else
      var n := |es| - 1;
      if !EndsInResponse(es) then SinceCoarse(es[..n])
      else if SameSecond(es[n]) then SinceCoarse(es[..n]) + ReportAt(es, n).diff.nanosec
      else 0
  }

  /** If the last message makes a fine report, the sum and the correction fit. */
  predicate LastFits(es: seq<Event>)
    requires AllArriving(es)
  {
    EndsInResponse(es) && SameSecond(es[|es| - 1]) ==>
      IsInt32(SinceCoarse(es)) && TuneDefined(ReportAt(es, |es| - 1).diff.nanosec, SinceCoarse(es))
  }

  predicate SumsFit(es: seq<Event>)
    requires AllArriving(es)
  {
    forall n :: 0 <= n <= |es| ==> LastFits(es[..n])
  }

  predicate Handled(es: seq<Event>)
    requires AllArriving(es)
  {
    AllComputable(es) && SumsFit(es)
  }

  lemma HandledStep(es: seq<Event>)
    requires AllArriving(es) && es != []
    ensures var n := |es| - 1;
      Handled(es) <==> Handled(es[..n]) && LastFits(es) && (EndsInResponse(es) ==> ComputableAt(es, n))
  {
    hide LastFits, ComputableAt, AllComputable, Event.Kind;
    var n := |es| - 1;
    PrefixComputable(es, n);
    assert es[..n + 1] == es && es[..|es|] == es;
    assert forall k :: 0 <= k <= n ==> es[..n][..k] == es[..k];
  }

  lemma NothingHandled()
    ensures Handled([])
  {
  }

  /** On every run of messages, whatever nanoseconds they carry, the behaviour of
      interpreter and servo is defined if and only if every Delay_Resp is computable
      and every sum of the differences since the last report of whole seconds fits. */
  lemma {:induction false} DefinedIff(es: seq<Event>, rs: seq<Reading>)
    requires AllArriving(es) && |es| == |rs|
    ensures ClockAfter(es, rs).defined <==> Handled(es)
    ensures Handled(es) ==> ClockAfter(es, rs).servo.integrated == SinceCoarse(es)
  {
    if es == [] {
      NothingHandled();
    } else {
      hide ReportAt, ComputableAt, SameSecond, Handled, Event.Kind, IsInt32, TuneDefined;
      DefinedIff(es[..|es| - 1], rs[..|es| - 1]);
      HandledStep(es);
      if EndsInResponse(es) {
        ReportIs(es, |es| - 1);
      }
    }
  }

  lemma SumFits(sum: int, error: int)
    requires IsInt32(sum) && Abs(error) < NS_SEC_PERIOD
    ensures TuneDefined(error, sum)
  {
  }

  /** A run of conforming messages with up to two Delay_Resps is always defined. */
  lemma TwoReportsFit(es: seq<Event>)
    requires AllConforming(es) && |Positions(es, DELAY_RESP)| <= 2
    ensures Handled(es)
  {
    hide ReportAt, SameSecond, SinceCoarse, AllComputable, Positions, IsInt32, TuneDefined;
    ConformingComputes(es);
    forall n | 0 <= n <= |es| ensures LastFits(es[..n]) {
      SumBounded(es[..n]);
      FewerPositions(es, n);
      SmallFits(SinceCoarse(es[..n]));
      if EndsInResponse(es[..n]) {
        ConformingStamp(es[n - 1]);
        ReportIs(es[..n], n - 1);
        SumFits(SinceCoarse(es[..n]), ReportAt(es[..n], n - 1).diff.nanosec);
      }
    }
  }

  lemma SmallFits(sum: int)
    requires Abs(sum) <= 2 * (NS_SEC_PERIOD - 1)
    ensures IsInt32(sum)
  {
  }

  lemma {:induction false} FewerPositions(es: seq<Event>, n: nat)
    requires AllConforming(es) && n <= |es|
    ensures |Positions(es[..n], DELAY_RESP)| <= |Positions(es, DELAY_RESP)|
    decreases |es|
  {
    if n < |es| {
      FewerPositions(es[..|es| - 1], n);
      assert es[..|es| - 1][..n] == es[..n];
    } else {
      assert es[..n] == es;
    }
  }

  lemma {:induction false} SumBounded(es: seq<Event>)
    requires AllConforming(es)
    ensures Abs(SinceCoarse(es)) <= |Positions(es, DELAY_RESP)| * (NS_SEC_PERIOD - 1)
  {
    if es != [] {
      hide ReportAt, SameSecond;
      SumBounded(es[..|es| - 1]);
      if EndsInResponse(es) {
        ConformingStamp(es[|es| - 1]);
        ReportIs(es, |es| - 1);
      }
    }
  }

  // ----- A run that overflows the sum

  /** A conforming Delay_Resp, handled at the start of second k and stamped at its
      end. */
  function FarResponse(k: nat): Event {
    Event(Message(DELAY_RESP, Ts(k, NS_SEC_PERIOD - 1)), Ts(k, 0))
  }

  function FarResponses(ks: seq<nat>): (es: seq<Event>)
    ensures |es| == |ks|
  {
    seq(|ks|, i requires 0 <= i < |ks| => FarResponse(ks[i]))
  }

  predicate Seconds(ks: seq<nat>) {
    forall i :: 0 <= i < |ks| ==> ks[i] < TWO48
  }

  lemma FarResponseIs(k: nat)
    requires k < TWO48
    ensures var e := FarResponse(k);
      e.Conforming() && e.Kind() == DELAY_RESP && SameSecond(e) && Stamp(e.msg) == Ts(k, NS_SEC_PERIOD - 1)
  {
    hide Stamp, Message;
    MessageCarries(DELAY_RESP, Ts(k, NS_SEC_PERIOD - 1));
  }

  lemma FarResponsesConform(ks: seq<nat>)
    requires Seconds(ks)
    ensures AllConforming(FarResponses(ks)) && AllArriving(FarResponses(ks))
  {
    hide FarResponse, Event.Conforming;
    forall i | 0 <= i < |ks| ensures FarResponses(ks)[i].Conforming() {
      FarResponseIs(ks[i]);
    }
    Arrives(FarResponses(ks));
  }

  lemma Arrives(es: seq<Event>)
    requires AllConforming(es)
    ensures AllArriving(es)
  {
  }

  /** With no Sync and no Follow_Up before it each makes the same report. */
  lemma FarReport(ks: seq<nat>)
    requires Seconds(ks) && ks != []
    ensures AllArriving(FarResponses(ks)) && EndsInResponse(FarResponses(ks))
    ensures SameSecond(FarResponses(ks)[|ks| - 1])
    ensures ReportAt(FarResponses(ks), |ks| - 1).diff == Ts(0, 999_999_998)
  {
    hide Stamp, Message, SameSecond;
    var es, n := FarResponses(ks), |ks| - 1;
    FarResponsesConform(ks);
    FarResponseIs(ks[n]);
    OnlyResponses(es[..n]);
  }

  lemma OnlyResponses(es: seq<Event>)
    requires AllArriving(es) && forall i :: 0 <= i < |es| ==> es[i].Kind() == DELAY_RESP
    ensures Latest(es, SYNC) == Latest(es, FOLLOW_UP) == -1
  {
  }

  lemma FarStep(ks: seq<nat>)
    requires Seconds(ks) && ks != []
    ensures var n := |ks| - 1;
      && AllArriving(FarResponses(ks)) && AllArriving(FarResponses(ks[..n]))
      && SinceCoarse(FarResponses(ks)) == SinceCoarse(FarResponses(ks[..n])) + 999_999_998
  {
    hide ReportAt, SameSecond, FarResponse, Event.Arriving, EndsInResponse;
    var n := |ks| - 1;
    FarResponsesConform(ks[..n]);
    FarReport(ks);
    assert FarResponses(ks)[..n] == FarResponses(ks[..n]);
  }

  /** Nor does anything clear the sum. */
  lemma {:induction false} FarSum(ks: seq<nat>)
    requires Seconds(ks)
    ensures AllArriving(FarResponses(ks)) && SinceCoarse(FarResponses(ks)) == |ks| * 999_999_998
  {
    if ks != [] {
      hide SinceCoarse, FarResponses, AllArriving;
      FarStep(ks);
      FarSum(ks[..|ks| - 1]);
    }
  }

  /** The register is valid all along. */
  lemma {:induction false} RegisterStaysValid(es: seq<Event>, rs: seq<Reading>)
    requires AllArriving(es) && |es| == |rs|
    ensures ClockAfter(es, rs).servo.register.Valid()
  {
    if es != [] {
      hide ReportAt, ComputableAt;
      RegisterStaysValid(es[..|es| - 1], rs[..|es| - 1]);
    }
  }

  /** A shift is always below 2^30 ns. */
  lemma ShiftIsSmall(es: seq<Event>, rs: seq<Reading>, i: nat)
    requires AllArriving(es) && |es| == |rs| && i < |es|
    ensures ActionAt(es, rs, i).ShiftedBy? ==> Abs(ActionAt(es, rs, i).nanosec) < TWO30
  {
    hide ReportAt, ComputableAt, ClockAfter;
    RegisterStaysValid(es[..i], rs[..i]);
  }

  /** In any three seconds such messages make the 32-bit sum overflow. If the seconds
      are two or more apart, no shift takes the clock past the next of them. */
  lemma ThreeResponsesOverflow(ks: seq<nat>, rs: seq<Reading>)
    requires |ks| == |rs| == 3 && Seconds(ks)
    ensures var es := FarResponses(ks); AllConforming(es) && AllArriving(es) && !ClockAfter(es, rs).defined
    ensures forall i :: 0 <= i < 2 && ks[i] + 2 <= ks[i + 1] ==> ClockReaches(FarResponses(ks), rs, i)
  {
    hide ClockAfter, ClockReaches, SinceCoarse, FarResponses, Handled, SameSecond, EndsInResponse, AllConforming,
      AllArriving, Seconds;
    FarResponsesConform(ks);
    FarReport(ks);
    FarSum(ks);
    Unfit(FarResponses(ks));
    DefinedIff(FarResponses(ks), rs);
    forall i | 0 <= i < 2 && ks[i] + 2 <= ks[i + 1] ensures ClockReaches(FarResponses(ks), rs, i) {
      FarResponsesReach(ks, rs, i);
    }
  }

  /** Message i leaves the clock before the time at which the next one is handled. */
  predicate ClockReaches(es: seq<Event>, rs: seq<Reading>, i: nat)
    requires AllArriving(es) && |es| == |rs| && i + 1 < |es|
  {
    var a := ActionAt(es, rs, i);
    !a.Set? && es[i].now.Value() + (if a.ShiftedBy? then a.nanosec else 0) < es[i + 1].now.Value()
  }

  lemma FarResponsesReach(ks: seq<nat>, rs: seq<Reading>, i: nat)
    requires Seconds(ks) && |ks| == |rs| && i + 1 < |ks| && ks[i] + 2 <= ks[i + 1]
    requires AllArriving(FarResponses(ks))
    ensures ClockReaches(FarResponses(ks), rs, i)
  {
    hide Stamp, ActionAt, Handled, SameSecondIn, SameSecond, Reports, ComputableAt, Event.Arriving, Event.Kind;
    var es := FarResponses(ks);
    ShiftIsSmall(es, rs, i);
    SetSchedule(es, rs, i);
    FarResponseIs(ks[i]);
    PrefixSame(es, i);
    assert es[i] == FarResponse(ks[i]) && es[i + 1] == FarResponse(ks[i + 1]);
  }

  lemma Unfit(es: seq<Event>)
    requires AllArriving(es) && EndsInResponse(es) && SameSecond(es[|es| - 1]) && !IsInt32(SinceCoarse(es))
    ensures !Handled(es)
  {
    hide SameSecond, SinceCoarse, AllComputable;
    assert es[..|es|] == es && !LastFits(es[..|es|]);
  }

  // ----- When the clock is set

  /** How many reports a run makes. */
  function Reports(es: seq<Event>): nat
    requires AllArriving(es)
  {
    |Positions(es, DELAY_RESP)|
  }

  /** What n reports, some in the same second or none, have made of the machine. */
  predicate Follows(s: Timesync.Sync, same: bool, n: nat) {
    if same then s.status == Timesync.Fine
    else if n == 0 then s == Timesync.INITIAL
    else s.status == Timesync.Coarse && s.counter == (n - 1) % 61
  }

  lemma ServeFollows(c: Clock, r: Report, uptime: int, now: Ts, same: bool, n: nat)
    requires c.defined ==> Follows(c.sync, same, n)
    ensures var t := Serve(c, r, uptime, now).0;
      t.defined ==> c.defined && Follows(t.sync, same || r.diff.seconds == 0, n + 1)
  {
  }

  lemma ReportsGrow(es: seq<Event>)
    requires AllArriving(es) && es != []
    ensures Reports(es) == Reports(es[..|es| - 1]) + if EndsInResponse(es) then 1 else 0
  {
  }

  /** Until a report shows the same second, the state machine is in coarse sync from
      the first report on, and its counter is one less than the number of reports,
      modulo 61; from such a report on it is in fine sync. */
  lemma {:induction false} SyncFollows(es: seq<Event>, rs: seq<Reading>)
    requires AllArriving(es) && |es| == |rs|
    ensures ClockAfter(es, rs).defined ==> Follows(ClockAfter(es, rs).sync, SameSecondIn(es), Reports(es))
  {
    if es != [] {
      hide ClockAfter, ReportAt, ComputableAt, SameSecond, SameSecondIn, Follows, Serve, Reports, Event.Kind, Positions;
      var n := |es| - 1;
      SyncFollows(es[..n], rs[..n]);
      ClockStep(es, rs);
      PrefixSame(es, n);
      assert es[..n + 1] == es;
      ReportsGrow(es);
      if EndsInResponse(es) {
        ReportIs(es, n);
        ServeFollows(ClockAfter(es[..n], rs[..n]), ReportAt(es, n), rs[n].uptime, rs[n].Now(),
                     SameSecondIn(es[..n]), Reports(es[..n]));
      } else {
        NotSame(es[n]);
      }
    } else {
      assert Positions(es, DELAY_RESP) == [];
    }
  }

  lemma ClockStep(es: seq<Event>, rs: seq<Reading>)
    requires AllArriving(es) && |es| == |rs| && es != []
    ensures var n := |es| - 1; var before := ClockAfter(es[..n], rs[..n]);
      ClockAfter(es, rs) == if !EndsInResponse(es) then before
                            else if ComputableAt(es, n)
                            then Serve(before, ReportAt(es, n), rs[n].uptime, rs[n].Now()).0
                            else before.(defined := false)
  {
    hide ReportAt, ComputableAt, Serve, Event.Kind;
  }

  lemma NotSame(e: Event)
    requires e.Arriving() && e.Kind() != DELAY_RESP
    ensures !SameSecond(e)
  {
  }

  lemma PrefixSame(es: seq<Event>, i: nat)
    requires i < |es|
    ensures SameSecondIn(es[..i + 1]) <==> SameSecondIn(es[..i]) || SameSecond(es[i])
  {
    hide SameSecond;
    assert forall k :: 0 <= k < i ==> es[..i][k] == es[..i + 1][k] == es[k];
    assert es[..i + 1][i] == es[i];
  }

  /** The clock is set exactly by every 61st Delay_Resp, the first included, as long
      as all is defined and none has been handled in the second of its own timestamp;
      and then to the master's receipt time within a nanosecond (a zero nanosecond
      field keeps the local nanoseconds instead). */
  lemma SetSchedule(es: seq<Event>, rs: seq<Reading>, i: nat)
    requires AllArriving(es) && |es| == |rs| && i < |es|
    ensures var a := ActionAt(es, rs, i);
      && (a.Set? <==>
            && Handled(es[..i]) && es[i].Kind() == DELAY_RESP && ComputableAt(es, i) && !SameSecondIn(es[..i + 1])
            && Reports(es[..i]) % 61 == 0 && Stamp(es[i].msg).seconds > 0)
      && (a.Set? ==> a.time.seconds == Stamp(es[i].msg).seconds)
      && (a.Set? && Stamp(es[i].msg).Normal() ==>
            && 0 <= a.time.nanosec < NS_SEC_PERIOD
            && (Abs(a.time.nanosec - Stamp(es[i].msg).nanosec) <= 1
                || (Stamp(es[i].msg).nanosec <= 1 && a.time.nanosec == rs[i].Now().nanosec)))
  {
    hide ReportAt, ComputableAt, Stamp, SameSecond, SameSecondIn, ClockAfter, Reports, Handled;
    SyncFollows(es[..i], rs[..i]);
    DefinedIff(es[..i], rs[..i]);
    PrefixSame(es, i);
    if es[i].Kind() == DELAY_RESP {
      ReportIs(es, i);
    }
  }

  /** What the counter shows after a set: the time set plus the time the two register
      writes take if and only if 32 bits hold the seconds and the nanoseconds do not
      wrap between the writes. So it is then the master's time, to a nanosecond and
      what has passed since, except at the start of a second. */
  lemma SetReachesMaster(es: seq<Event>, rs: seq<Reading>, i: nat)
    requires AllArriving(es) && |es| == |rs| && i < |es| && ActionAt(es, rs, i).Set?
    requires |es[i].msg| >= MESSAGE_LEN && Stamp(es[i].msg).Normal()
    ensures var a, t4, gap := ActionAt(es, rs, i), Stamp(es[i].msg), rs[i].pace.gap;
      && 0 <= a.time.nanosec < NS_SEC_PERIOD
      && var shown := Moved(a, rs[i].counter, rs[i].pace);
      && (shown == a.time.Value() + gap <==> t4.seconds < TWO32 && a.time.nanosec + gap < NS_SEC_PERIOD)
      && (t4.seconds < TWO32 && a.time.nanosec + gap < NS_SEC_PERIOD && t4.nanosec > 1 ==>
            Abs(shown - (t4.Value() + gap)) <= 1)
  {
    hide Stamp, ActionAt, SameSecondIn, Reports, Handled, ComputableAt;
    SetSchedule(es, rs, i);
    SetLosesWraps(ActionAt(es, rs, i).time, rs[i].pace.gap);
  }

  /** Once one Delay_Resp has been handled in its own second, the clock is never set
      again, and an error of whole seconds is never corrected: a later message moves
      the clock if and only if all is defined and it is again a Delay_Resp in its own
      second. */
  lemma SecondsStayWrong(es: seq<Event>, rs: seq<Reading>, i: nat, j: nat)
    requires AllArriving(es) && |es| == |rs| && i < j < |es| && SameSecond(es[i])
    ensures !ActionAt(es, rs, j).Set?
    ensures ActionAt(es, rs, j) == Nothing <==> !SameSecond(es[j]) || !Handled(es[..j + 1])
  {
    hide ReportAt, ComputableAt, Stamp, SameSecond, Handled, Fits, Reports;
    var upTo, rsTo := es[..j + 1], rs[..j + 1];
    assert upTo[j] == es[j] && upTo[..j] == es[..j] && rsTo[..j] == rs[..j] && es[..j][i] == es[i];
    SyncFollows(es[..j], rs[..j]);
    DefinedIff(es[..j], rs[..j]);
    DefinedIff(upTo, rsTo);
    ClockStep(upTo, rsTo);
    if es[j].Kind() == DELAY_RESP {
      PrefixReport(es, j + 1, j);
      PrefixComputableAt(es, j);
      ReportIs(es, j);
      hide ClockAfter;
    } else {
      NotSame(es[j]);
    }
  }

  lemma PrefixComputableAt(es: seq<Event>, j: nat)
    requires AllArriving(es) && j < |es| && es[j].Kind() == DELAY_RESP
    ensures ComputableAt(es[..j + 1], j) <==> ComputableAt(es, j)
  {
    assert es[..j + 1][..j] == es[..j];
  }

  /** A whole exchange in one second, and a Delay_Resp stamped ten seconds later. */
  function LateSecond(): seq<Event> {
    [Event(Message(SYNC, ZERO), ZERO), Event(Message(FOLLOW_UP, ZERO), ZERO),
     Event(Message(DELAY_RESP, ZERO), ZERO), Event(Message(DELAY_RESP, Ts(10, 0)), ZERO)]
  }

  /** The slave is then ten seconds behind the master, and does nothing. */
  lemma LateSecondStays(rs: seq<Reading>)
    requires |rs| == 4
    ensures var es := LateSecond();
      && AllConforming(es) && AllArriving(es) && SameSecond(es[2])
      && Stamp(es[3].msg).seconds - es[3].now.seconds == 10
      && ActionAt(es, rs, 3) == Nothing
  {
    hide Stamp, Message, ActionAt, Handled;
    var es := LateSecond();
    MessageCarries(SYNC, ZERO);
    MessageCarries(FOLLOW_UP, ZERO);
    MessageCarries(DELAY_RESP, ZERO);
    MessageCarries(DELAY_RESP, Ts(10, 0));
    assert es[0].Conforming() && es[1].Conforming() && es[2].Conforming() && es[3].Conforming();
    SecondsStayWrong(es, rs, 2, 3);
  }
}
