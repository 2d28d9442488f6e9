/** The slave's message interpreter of ptp_sync.c: what one message does, and what
    every run of messages reports and sends. */
module PtpSync {
  import opened CInt
  import opened PtpTime
  import opened PtpWire

  /** One call of the interpreter: the message and what the local clock reads. */
  datatype Event = Event(msg: seq<byte>, now: Ts) {
    /** The bytes the interpreter reads are there; it checks no length itself. */
    predicate Readable() {
      && |msg| >= 4
      && (MessageType(msg) in {FOLLOW_UP, DELAY_RESP} ==> |msg| >= MESSAGE_LEN)
    }

    function Kind(): int
      requires Readable()
    {
      MessageType(msg)
    }

    predicate HasStamp()
      requires Readable()
    {
      Kind() in {FOLLOW_UP, DELAY_RESP}
    }

    /** Read by a normalised local clock, whatever timestamp it carries. */
    predicate Arriving() {
      Readable() && now.Normal()
    }

    /** Wire nanoseconds below 10^9 as well (section 5.3.3 of IEEE 1588-2008). */
    predicate Conforming() {
      Arriving() && (HasStamp() ==> Stamp(msg).Normal())
    }
  }

  /** The interpreter's static variables, the messages handed to the send
      callback and the reports made so far. `defined` is lost for good by the
      first overflowing operation. */
  datatype State = State(t1: Ts, t2: Ts, t3: Ts, t4: Ts, sys: Ts, request: seq<byte>,
                         sent: seq<seq<byte>>, reports: seq<Report>, defined: bool)

  const INITIAL := State(ZERO, ZERO, ZERO, ZERO, ZERO, Zeros(MESSAGE_LEN), [], [], true)

  function Step(s: State, e: Event): State
    requires e.Readable()
  {
    if !s.defined then s
    else if e.Kind() == SYNC then s.(t2 := e.now)
    else if e.Kind() == FOLLOW_UP then
      var r := DelayReq(e.msg, e.now);
      s.(t1 := Stamp(e.msg), t3 := e.now, request := r, sent := s.sent + [r])
    else if e.Kind() == DELAY_RESP then
      var t4 := Stamp(e.msg);
      var s' := s.(sys := e.now, t4 := t4);
      match Evaluate(s.t1, s.t2, s.t3, t4, e.now)
      case Some(r) => s'.(reports := s.reports + [r])
      case None => s'.(defined := false)
    else s
  }

  const PTP_MSG_OK := 0
  const PTP_MSG_ERR := -1

  /** The file's static variables and callbacks. */
  class Slave {
    var t1: Ts
    var t2: Ts
    var t3: Ts
    var t4: Ts
    var sys: Ts
    const request: array<byte>
    var sent: seq<seq<byte>>
    var reports: seq<Report>
    var defined: bool

    /** The bytes of the static Delay_Req that nothing ever writes are zero. */
    ghost predicate Valid()
      reads this, request
    {
      && request.Length == MESSAGE_LEN
      && (forall i :: 16 <= i < 32 ==> request[i] == 0)
      && request[33] == 0
    }

    ghost function Model(): State
      reads this, request
    {
      State(t1, t2, t3, t4, sys, request[..], sent, reports, defined)
    }

    constructor ()
      ensures Valid() && fresh(request) && Model() == INITIAL
    {
      t1, t2, t3, t4, sys := ZERO, ZERO, ZERO, ZERO, ZERO;
      sent, reports, defined := [], [], true;
      request := new byte[MESSAGE_LEN](_ => 0);
      new;
      assert request[..] == Zeros(MESSAGE_LEN);
    }

    /** The fixed fields: 44 big-endian, the control field and the cleared ones. */
    method FixHeader()
      requires Valid()
      modifies request
      ensures request[0] == old(request[0]) / 16 * 16 + 1 && request[1] == old(request[1])
      ensures request[2] == 0 && request[3] == 44 && request[32] == 5
      ensures forall i :: 4 <= i < 32 || i == 33 ==> request[i] == 0
      ensures request[TS_OFFSET..] == old(request[TS_OFFSET..])
    {
      request[0] := request[0] / 16 * 16 + DELAY_REQ;
      request[2], request[3] := 0, MESSAGE_LEN;
      request[32] := 5;
      request[4], request[5], request[6], request[7] := 0, 0, 0, 0;
      var i := 8;
      while i < 16
        invariant 8 <= i <= 16
        invariant forall j :: 4 <= j < i ==> request[j] == 0
        invariant forall j :: 16 <= j < MESSAGE_LEN && j != 32 ==> request[j] == old(request[j])
        invariant request[0] == old(request[0]) / 16 * 16 + DELAY_REQ && request[1] == old(request[1])
        invariant request[2] == 0 && request[3] == MESSAGE_LEN && request[32] == 5
      {
        request[i] := 0;
        i := i + 1;
      }
    }

    method SendDelayReq(m: seq<byte>, ts: Ts)
      requires Valid() && |m| >= 4
      modifies this`sent, request
      ensures Valid()
      ensures request[..] == DelayReq(m, ts)
      ensures sent == old(sent) + [DelayReq(m, ts)]
    {
      hide Encode, EncodeTs;
      request[0], request[1], request[2], request[3] := m[0], m[1], m[2], m[3];
      label copied:
      PrepareTimestamp(ts, request, TS_OFFSET);
      assert forall i :: 0 <= i < TS_OFFSET ==> request[..][i] == old@copied(request[..TS_OFFSET])[i];
      assert request[TS_OFFSET..] == request[..][TS_OFFSET..] == EncodeTs(ts);
      FixHeader();
      LengthBytes();
      assert request[..TS_OFFSET] == RequestHeader(m);
      assert request[..] == request[..TS_OFFSET] + request[TS_OFFSET..];
      sent := sent + [request[..]];
    }

    method Interpret(m: seq<byte>, now: Ts) returns (status: int)
      requires Valid() && defined && Event(m, now).Readable()
      modifies this, request
      ensures Valid()
      ensures Model() == Step(old(Model()), Event(m, now))
      ensures status == if m[0] % 16 in {0, 8, 9, 3, 0xA, 0xB} then 0 else -1
    {
      status := PTP_MSG_OK;
      var kind := MessageType(m);
      if kind == SYNC {
        t2 := now;
      } else if kind == FOLLOW_UP {
        t1 := StoreTimestamp(m[TS_OFFSET..MESSAGE_LEN]);
        t3 := now;
        SendDelayReq(m, t3);
      } else if kind == DELAY_RESP {
        sys := now;
        t4 := StoreTimestamp(m[TS_OFFSET..MESSAGE_LEN]);
        var r := Evaluate(t1, t2, t3, t4, sys);
        if r.Some? {
          reports := reports + [r.value];
        } else {
          defined := false;
        }
      } else if kind != PDELAY_RESP && kind != PDELAY_RESP_FOLLOW_UP && kind != ANNOUNCE {
        status := PTP_MSG_ERR;
      }
    }
  }

  // ----- Runs

  predicate AllArriving(es: seq<Event>) {
    forall i :: 0 <= i < |es| ==> es[i].Arriving()
  }

  predicate AllConforming(es: seq<Event>) {
    forall i :: 0 <= i < |es| ==> es[i].Conforming()
  }

  function Run(es: seq<Event>): State
    requires AllArriving(es)
  {
    if es == [] then INITIAL else Step(Run(es[..|es| - 1]), es[|es| - 1])
  }

  /** The position of the latest message of a kind, or -1. */
  function Latest(es: seq<Event>, kind: int): (i: int)
    requires AllArriving(es)
    ensures -1 <= i < |es|
    ensures i >= 0 ==> es[i].Kind() == kind
    ensures forall j :: i < j < |es| ==> es[j].Kind() != kind
  {
    if es == [] then -1
    else if es[|es| - 1].Kind() == kind then |es| - 1
    else Latest(es[..|es| - 1], kind)
  }

  /** When the latest Sync arrived. */
  function SyncArrival(es: seq<Event>): Ts
    requires AllArriving(es)
  {
    var i := Latest(es, SYNC);
    if i < 0 then ZERO else es[i].now
  }

  /** What the latest Follow_Up carried. */
  function Origin(es: seq<Event>): Ts
    requires AllArriving(es)
  {
    var i := Latest(es, FOLLOW_UP);
    if i < 0 then ZERO else Stamp(es[i].msg)
  }

  /** When the latest Delay_Req left. */
  function SendTime(es: seq<Event>): Ts
    requires AllArriving(es)
  {
    var i := Latest(es, FOLLOW_UP);
    if i < 0 then ZERO else es[i].now
  }

  /** The report that the Delay_Resp at position i calls for. */
  function ReportAt(es: seq<Event>, i: nat): Report
    requires AllArriving(es) && i < |es| && es[i].Kind() == DELAY_RESP
  {
    ClosedForm(Origin(es[..i]), SyncArrival(es[..i]), SendTime(es[..i]), Stamp(es[i].msg), es[i].now)
  }

  /** The nanoseconds that the Delay_Resp at position i meets allow it to be
      evaluated in 32 bits. */
  predicate ComputableAt(es: seq<Event>, i: nat)
    requires AllArriving(es) && i < |es| && es[i].Kind() == DELAY_RESP
  {
    Computable(Origin(es[..i]), SyncArrival(es[..i]), SendTime(es[..i]), Stamp(es[i].msg), es[i].now)
  }

  predicate AllComputable(es: seq<Event>)
    requires AllArriving(es)
  {
    forall i :: 0 <= i < |es| && es[i].Kind() == DELAY_RESP ==> ComputableAt(es, i)
  }

  /** The positions that hold a message of a kind, in order. */
  function Positions(es: seq<Event>, kind: int): (ps: seq<nat>)
    requires AllArriving(es)
    ensures forall k :: 0 <= k < |ps| ==> ps[k] < |es| && es[ps[k]].Kind() == kind
    ensures forall j, k :: 0 <= j < k < |ps| ==> ps[j] < ps[k]
    ensures forall i :: 0 <= i < |es| && es[i].Kind() == kind ==> i in ps
  {
    if es == [] then []
    else
      var n := |es| - 1;
      Positions(es[..n], kind) + if es[n].Kind() == kind then [n] else []
  }

  /** What a message carries is at least what ten bytes can decode to. */
  lemma StampFromWire(m: seq<byte>)
    requires |m| >= MESSAGE_LEN
    ensures FromWire(Stamp(m))
  {
    BytesRoundTrip(m[TS_OFFSET..MESSAGE_LEN]);
    hide DecodeTs;
  }

  /** The three times that the variables stand for. */
  lemma TimesFromWire(es: seq<Event>)
    requires AllArriving(es)
    ensures FromWire(Origin(es)) && SyncArrival(es).Normal() && SendTime(es).Normal()
  {
    hide Stamp;
    if Latest(es, FOLLOW_UP) >= 0 {
      StampFromWire(es[Latest(es, FOLLOW_UP)].msg);
    }
  }

  lemma PrefixComputable(es: seq<Event>, n: nat)
    requires AllArriving(es) && n < |es|
    ensures AllArriving(es[..n]) && AllArriving(es[..n + 1])
    ensures AllComputable(es[..n + 1])
       <==> AllComputable(es[..n]) && (es[n].Kind() == DELAY_RESP ==> ComputableAt(es, n))
  {
    hide Computable, Origin, SyncArrival, SendTime, Stamp, Event.Kind;
    assert forall i :: 0 <= i < n ==> es[..n + 1][..i] == es[..n][..i] == es[..i];
    assert es[..n + 1][n] == es[n] && es[..n + 1][..n] == es[..n];
    assert forall i :: 0 <= i < n ==> es[..n + 1][i] == es[..n][i];
  }

  /** One message: the variables follow, and only an incomputable Delay_Resp ends the
      defined behaviour. */
  lemma StepTracks(es: seq<Event>, s: State)
    requires AllArriving(es) && es != []
    requires var before := es[..|es| - 1];
      s.defined && s.t1 == Origin(before) && s.t2 == SyncArrival(before) && s.t3 == SendTime(before)
    ensures var e := es[|es| - 1]; var t := Step(s, e);
      && (t.defined <==> (e.Kind() == DELAY_RESP ==> ComputableAt(es, |es| - 1)))
      && (t.defined ==> t.t1 == Origin(es) && t.t2 == SyncArrival(es) && t.t3 == SendTime(es))
      && (t.defined ==> t.reports == s.reports + if e.Kind() == DELAY_RESP then [ReportAt(es, |es| - 1)] else [])
      && (t.defined ==> t.sent == s.sent + if e.Kind() == FOLLOW_UP then [DelayReq(e.msg, e.now)] else [])
  {
    hide Evaluate, ClosedForm, Computable, DelayReq, Stamp;
    var e := es[|es| - 1];
    if e.Kind() == DELAY_RESP {
      StampFromWire(e.msg);
      TimesFromWire(es[..|es| - 1]);
      EvaluatesIff(s.t1, s.t2, s.t3, Stamp(e.msg), e.now);
    }
  }

  /** On every run of messages, conforming or not: no operation has overflowed if and
      only if every Delay_Resp was computable; and then the variables hold the latest
      Sync arrival, origin and send time. */
  lemma {:induction false} RunTracks(es: seq<Event>)
    requires AllArriving(es)
    ensures Run(es).defined <==> AllComputable(es)
    ensures Run(es).defined ==>
      Run(es).t1 == Origin(es) && Run(es).t2 == SyncArrival(es) && Run(es).t3 == SendTime(es)
  {
    if es != [] {
      hide Run, Step, ComputableAt, Origin, SyncArrival, SendTime, AllComputable, Event.Kind;
      var n := |es| - 1;
      RunUnfolds(es);
      RunTracks(es[..n]);
      PrefixComputable(es, n);
      assert es[..n + 1] == es;
      if Run(es[..n]).defined {
        StepTracks(es, Run(es[..n]));
      } else {
        UndefinedForGood(Run(es[..n]), es[n]);
      }
    }
  }

  /** The latest message of a kind, by its type in the low half of the first byte. */
  lemma LatestIs(es: seq<Event>, kind: int, i: nat)
    requires AllArriving(es) && i < |es| && es[i].msg[0] % 16 == kind
    requires forall j :: i < j < |es| ==> es[j].msg[0] % 16 != kind
    ensures Latest(es, kind) == i
  {
  }

  /** In a defined run t2 is the time of the latest Sync (type 0), and t1 and t3 are
      the timestamp and the time of the latest Follow_Up (type 8). */
  lemma RunHolds(es: seq<Event>, sync: nat, followUp: nat)
    requires AllArriving(es) && AllComputable(es) && sync < |es| && followUp < |es|
    requires es[sync].msg[0] % 16 == 0 && forall j :: sync < j < |es| ==> es[j].msg[0] % 16 != 0
    requires es[followUp].msg[0] % 16 == 8 && forall j :: followUp < j < |es| ==> es[j].msg[0] % 16 != 8
    ensures |es[followUp].msg| >= 44
    ensures var s := Run(es);
      s.t1 == Stamp(es[followUp].msg) && s.t2 == es[sync].now && s.t3 == es[followUp].now
  {
    hide Run, Stamp, AllComputable;
    assert es[followUp].Arriving();
    LatestIs(es, 0, sync);
    LatestIs(es, 8, followUp);
    RunTracks(es);
  }

  /** And then a Delay_Resp (type 9) reports what the arithmetic makes of those three,
      its own timestamp and the time at which it is handled. */
  lemma ResponseReports(es: seq<Event>, e: Event, sync: nat, followUp: nat)
    requires AllArriving(es) && AllComputable(es) && sync < |es| && followUp < |es|
    requires es[sync].msg[0] % 16 == 0 && forall j :: sync < j < |es| ==> es[j].msg[0] % 16 != 0
    requires es[followUp].msg[0] % 16 == 8 && forall j :: followUp < j < |es| ==> es[j].msg[0] % 16 != 8
    requires e.Arriving() && e.msg[0] % 16 == 9
    ensures |es[followUp].msg| >= 44 && |e.msg| >= 44 && AllArriving(es + [e])
    ensures var r := Evaluate(Stamp(es[followUp].msg), es[sync].now, es[followUp].now, Stamp(e.msg), e.now);
      if r.Some? then
        && Run(es + [e]).defined && Run(es + [e]).reports == Run(es).reports + [r.value]
        && Run(es + [e]).t4 == Stamp(e.msg) && Run(es + [e]).sys == e.now
      else !Run(es + [e]).defined
  {
    hide Stamp, AllComputable, Evaluate;
    assert (es + [e])[..|es|] == es;
    RunHolds(es, sync, followUp);
    RunTracks(es);
    RunUnfolds(es + [e]);
    hide Run;
  }

  lemma RunUnfolds(es: seq<Event>)
    requires AllArriving(es) && es != []
    ensures Run(es) == Step(Run(es[..|es| - 1]), es[|es| - 1])
  {
  }

  lemma UndefinedForGood(s: State, e: Event)
    requires !s.defined && e.Readable()
    ensures Step(s, e) == s
  {
  }

  /** Messages with wire nanoseconds below 10^9 are always computable. */
  lemma ConformingComputes(es: seq<Event>)
    requires AllConforming(es)
    ensures AllArriving(es) && AllComputable(es) && Run(es).defined
  {
    hide Computable, Stamp, Run, Evaluate;
    assert forall i :: 0 <= i < |es| ==> es[i].Conforming();
    forall i | 0 <= i < |es| && es[i].Kind() == DELAY_RESP ensures ComputableAt(es, i) {
      TimesConform(es[..i]);
      ConformingStamp(es[i]);
      NormalComputes(Origin(es[..i]), SyncArrival(es[..i]), SendTime(es[..i]), Stamp(es[i].msg), es[i].now);
    }
    RunTracks(es);
  }

  lemma ConformingStamp(e: Event)
    requires e.Conforming() && e.Kind() in {FOLLOW_UP, DELAY_RESP}
    ensures Stamp(e.msg).Normal() && e.now.Normal()
  {
    hide Stamp;
  }

  lemma TimesConform(es: seq<Event>)
    requires AllConforming(es)
    ensures AllArriving(es) && Origin(es).Normal() && SyncArrival(es).Normal() && SendTime(es).Normal()
  {
    hide Stamp;
    assert forall i :: 0 <= i < |es| ==> es[i].Conforming();
    if Latest(es, FOLLOW_UP) >= 0 {
      ConformingStamp(es[Latest(es, FOLLOW_UP)]);
    }
  }

  /** One message appends exactly what the history calls for. */
  lemma StepReports(es: seq<Event>)
    requires AllArriving(es) && AllComputable(es) && es != []
    ensures var n := |es| - 1;
      && AllComputable(es[..n])
      && Run(es).reports == Run(es[..n]).reports + (if es[n].Kind() == DELAY_RESP then [ReportAt(es, n)] else [])
      && Run(es).sent == Run(es[..n]).sent
                         + if es[n].Kind() == FOLLOW_UP then [DelayReq(es[n].msg, es[n].now)] else []
  {
    hide Step, ComputableAt, Origin, SyncArrival, SendTime, AllComputable, ReportAt, DelayReq, Event.Kind;
    var n := |es| - 1;
    assert es[..n + 1] == es;
    PrefixComputable(es, n);
    RunTracks(es);
    RunTracks(es[..n]);
    StepTracks(es, Run(es[..n]));
  }

  lemma PrefixReport(es: seq<Event>, n: nat, i: nat)
    requires AllArriving(es) && i < n <= |es| && es[i].Kind() == DELAY_RESP
    ensures ReportAt(es[..n], i) == ReportAt(es, i)
  {
    assert es[..n][..i] == es[..i];
  }

  lemma PositionsStep(es: seq<Event>, kind: int)
    requires AllArriving(es) && es != []
    ensures var n := |es| - 1;
      Positions(es, kind) == Positions(es[..n], kind) + if es[n].Kind() == kind then [n] else []
  {
    hide Event.Kind;
  }

  lemma NoPositions(es: seq<Event>, kind: int)
    requires es == []
    ensures Positions(es, kind) == [] && Run(es).reports == [] && Run(es).sent == []
  {
  }

  /** Whatever the order of the messages, a Delay_Resp before any Sync included:
      there is one report for each Delay_Resp, made of exactly the latest Sync
      arrival, origin and send time before it and of the Delay_Resp itself. */
  lemma {:induction false} RunReports(es: seq<Event>)
    requires AllArriving(es) && AllComputable(es)
    ensures var r, ps := Run(es).reports, Positions(es, DELAY_RESP);
      && |r| == |ps|
      && forall k :: 0 <= k < |ps| ==> r[k] == ReportAt(es, ps[k])
  {
    hide Run, Positions, ReportAt, AllComputable, Event.Kind;
    if es == [] {
      NoPositions(es, DELAY_RESP);
    } else {
      var n := |es| - 1;
      StepReports(es);
      PositionsStep(es, DELAY_RESP);
      RunReports(es[..n]);
      forall k | 0 <= k < |Positions(es[..n], DELAY_RESP)|
        ensures ReportAt(es[..n], Positions(es[..n], DELAY_RESP)[k]) == ReportAt(es, Positions(es[..n], DELAY_RESP)[k])
      {
        PrefixReport(es, n, Positions(es[..n], DELAY_RESP)[k]);
      }
    }
  }

  /** One Delay_Req is sent for each Follow_Up, stamped with the time it is sent. */
  lemma {:induction false} RunSends(es: seq<Event>)
    requires AllArriving(es) && AllComputable(es)
    ensures var r, ps := Run(es).sent, Positions(es, FOLLOW_UP);
      && |r| == |ps|
      && forall k :: 0 <= k < |ps| ==> r[k] == DelayReq(es[ps[k]].msg, es[ps[k]].now)
  {
    hide Run, Positions, DelayReq, AllComputable, Event.Kind;
    if es == [] {
      NoPositions(es, FOLLOW_UP);
    } else {
      StepReports(es);
      PositionsStep(es, FOLLOW_UP);
      RunSends(es[..|es| - 1]);
    }
  }

  /** Two histories that agree on the latest Sync arrival, origin and send time do the
      same on the same Delay_Resp, whatever else they contain: both make the same
      report, or both overflow. */
  lemma ReportsAreLocal(es: seq<Event>, fs: seq<Event>, e: Event)
    requires AllArriving(es) && AllComputable(es) && AllArriving(fs) && AllComputable(fs)
    requires e.Arriving() && e.Kind() == DELAY_RESP
    requires Origin(es) == Origin(fs) && SyncArrival(es) == SyncArrival(fs) && SendTime(es) == SendTime(fs)
    ensures AllArriving(es + [e]) && AllArriving(fs + [e])
    ensures Run(es + [e]).defined <==> Run(fs + [e]).defined
    ensures Run(es + [e]).defined ==>
      exists r :: Run(es + [e]).reports == Run(es).reports + [r] && Run(fs + [e]).reports == Run(fs).reports + [r]
  {
    hide Run, ClosedForm, Computable, Stamp, Origin, SyncArrival, SendTime, AllComputable;
    assert (es + [e])[..|es|] == es && (fs + [e])[..|fs|] == fs;
    assert (es + [e])[..|es| + 1] == es + [e] && (fs + [e])[..|fs| + 1] == fs + [e];
    PrefixComputable(es + [e], |es|);
    PrefixComputable(fs + [e], |fs|);
    RunTracks(es + [e]);
    RunTracks(fs + [e]);
    assert ComputableAt(es + [e], |es|) <==> ComputableAt(fs + [e], |fs|);
    if Run(es + [e]).defined {
      StepReports(es + [e]);
      StepReports(fs + [e]);
    }
  }

  /** Every Delay_Req ever sent has the first half byte and the version of its
      Follow_Up, decodes to the local time at which that was handled, and holds
      nothing else but its type, its length of 44 and its control field. */
  lemma SentRequestsDecode(es: seq<Event>, k: nat)
    requires AllArriving(es) && AllComputable(es) && k < |Run(es).sent|
    ensures k < |Positions(es, FOLLOW_UP)|
    ensures var r, e := Run(es).sent[k], es[Positions(es, FOLLOW_UP)[k]];
      && |r| == 44 && |e.msg| >= 44
      && r[0] % 16 == 1 && r[0] / 16 == e.msg[0] / 16 && r[1] == e.msg[1]
      && r[2..4] == [0, 44] && r[32] == 5
      && (forall i :: 4 <= i < 34 && i != 32 ==> r[i] == 0)
      && Stamp(r) == e.now
  {
    hide Run, DelayReq, Stamp, AllComputable;
    RunSends(es);
    var e := es[Positions(es, FOLLOW_UP)[k]];
    assert e.Arriving();
    DelayReqDecodes(e.msg, e.now);
  }

  /** In every run the synchronised time reported is the master's receipt time of
      the latest Delay_Req, off by at most one nanosecond, and always normalised;
      a difference of zero seconds means that the clocks show the same second. */
  lemma ReportsTrackReceipt(es: seq<Event>, k: nat)
    requires AllConforming(es) && k < |Run(es).reports|
    ensures k < |Positions(es, DELAY_RESP)|
    ensures var r, e := Run(es).reports[k], es[Positions(es, DELAY_RESP)[k]];
      && r.synced.Normal()
      && r.synced.seconds == Stamp(e.msg).seconds
      && Abs(r.synced.nanosec - Stamp(e.msg).nanosec) <= 1
      && Abs(r.diff.nanosec) < NS_SEC_PERIOD
      && (r.diff.seconds == 0 <==> Stamp(e.msg).seconds == e.now.seconds)
  {
    hide Run, Stamp, Origin, SyncArrival, SendTime, AllComputable;
    ConformingComputes(es);
    RunReports(es);
    var i := Positions(es, DELAY_RESP)[k];
    assert es[i].Conforming();
    ConformingStamp(es[i]);
    TimesConform(es[..i]);
    ClosedFormNormal(Origin(es[..i]), SyncArrival(es[..i]), SendTime(es[..i]), Stamp(es[i].msg), es[i].now);
  }

  // ----- A run that overflows

  /** A message of a kind with a timestamp. */
  function Message(kind: byte, t: Ts): (m: seq<byte>)
    requires kind < 16
    ensures |m| == MESSAGE_LEN && MessageType(m) == kind
  {
    [kind] + Zeros(TS_OFFSET - 1) + EncodeTs(t)
  }

  lemma MessageCarries(kind: byte, t: Ts)
    requires kind < 16 && FromWire(t)
    ensures Stamp(Message(kind, t)) == t
  {
    hide EncodeTs, DecodeTs;
    TsRoundTrip(t);
    assert Message(kind, t)[TS_OFFSET..MESSAGE_LEN] == EncodeTs(t);
  }

  /** A Follow_Up with the nanoseconds `n1`, and a Delay_Resp with the largest that
      the standard allows, both handled at local time zero. */
  function Exchange(n1: int): seq<Event>
    requires IsInt32(n1)
  {
    [Event(Message(FOLLOW_UP, Ts(0, n1)), ZERO), Event(Message(DELAY_RESP, Ts(0, NS_SEC_PERIOD - 1)), ZERO)]
  }

  /** Nothing rejects the Follow_Up, whatever its nanoseconds; the exchange is
      defined only within a range that ends not far above 10^9. */
  lemma ExchangeIff(n1: int)
    requires IsInt32(n1)
    ensures AllArriving(Exchange(n1))
    ensures Run(Exchange(n1)).defined <==> -1_147_483_648 <= n1 <= 1_147_483_649
  {
    hide Stamp, Message, Run, Computable;
    var es := Exchange(n1);
    var t1, t4 := Ts(0, n1), Ts(0, NS_SEC_PERIOD - 1);
    MessageCarries(FOLLOW_UP, t1);
    MessageCarries(DELAY_RESP, t4);
    assert es[0].Arriving() && es[1].Arriving();
    RunTracks(es);
    assert es[..1] == [es[0]] && es[..1][..0] == [];
    assert Latest(es[..1], FOLLOW_UP) == 0;
    assert Latest([], SYNC) == -1 && Latest(es[..1], SYNC) == -1;
    assert ComputableAt(es, 1) <==> Computable(t1, ZERO, ZERO, t4, ZERO);
    ExchangeRange(n1);
  }

  lemma ExchangeRange(n1: int)
    requires IsInt32(n1)
    ensures Computable(Ts(0, n1), ZERO, ZERO, Ts(0, NS_SEC_PERIOD - 1), ZERO)
       <==> -1_147_483_648 <= n1 <= 1_147_483_649
  {
  }
}
