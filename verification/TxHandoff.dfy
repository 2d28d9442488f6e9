/** The transmit ring as the driver and the hardware share it: every single write of
    xemacpsif_dma.c is one step, and hardware steps come between any two of them. */
module TxHandoff {
  import opened CInt

  /** A buffer's address; the ring keeps it in a descriptor and in a storage slot. */
  type Buf = nat

  /** The two words of a transmit descriptor. */
  datatype Bd = Bd(addr: Option<Buf>, len: nat, used: bool, last: bool, wrap: bool)

  /** One buffer of a frame, with the length that goes into its descriptor. */
  datatype Seg = Seg(buf: Buf, len: nat)

  /** What the hardware reads from one descriptor. */
  datatype Item = Item(buf: Buf, len: nat, last: bool)

  // ----- The ring

  /** The ring index o places after f. */
  function At(f: nat, o: nat, n: nat): nat {
    if f + o < n then f + o else f + o - n
  }

  /** Descriptors, storage slots, and the library's head and count of the hardware
      segment. Offsets count from the head. */
  datatype Ring = Ring(n: nat, bds: seq<Bd>, slots: seq<Option<Buf>>, tail: nat, hwCnt: nat) {
    predicate Shape() {
      0 < n == |bds| == |slots| && tail < n && hwCnt <= n
    }

    function Bd(o: nat): Bd
      requires Shape() && o < n
    {
      bds[At(tail, o, n)]
    }

    function Slot(o: nat): Option<Buf>
      requires Shape() && o < n
    {
      slots[At(tail, o, n)]
    }

    function WithBd(o: nat, bd: Bd): Ring
      requires Shape() && o < n
    {
      this.(bds := bds[At(tail, o, n) := bd])
    }

    function WithSlot(o: nat, slot: Option<Buf>): Ring
      requires Shape() && o < n
    {
      this.(slots := slots[At(tail, o, n) := slot])
    }

    /** Only the last descriptor of the ring wraps. */
    predicate WrapOk() {
      |bds| == n && forall i :: 0 <= i < n ==> (bds[i].wrap <==> i == n - 1)
    }

    /** The first descriptor marked last from offset o on, or the segment's end. */
    function ToLast(o: nat): (e: nat)
      requires Shape() && o <= hwCnt
      ensures o <= e <= hwCnt
      decreases hwCnt - o
    {
      if o == hwCnt || Bd(o).last then o else ToLast(o + 1)
    }

    /** XEmacPs_BdRingFromHwTx: the whole frames at the head of the hardware
        segment whose first descriptor is marked used. */
    function Scan(o: nat): (e: nat)
      requires Shape() && o <= hwCnt
      ensures o <= e <= hwCnt
      decreases hwCnt - o
    {
      if o < hwCnt && Bd(o).used && ToLast(o) < hwCnt then Scan(ToLast(o) + 1) else o
    }
  }

  /** Writing at one offset changes what is read at that offset only. */
  lemma WithBdReads(r: Ring, o: nat, bd: Bd)
    requires r.Shape() && o < r.n
    ensures var t := r.WithBd(o, bd);
      && t.Shape()
      && (forall p :: 0 <= p < r.n ==> t.Bd(p) == if p == o then bd else r.Bd(p))
      && (forall p :: 0 <= p < r.n ==> t.Slot(p) == r.Slot(p))
      && (r.WrapOk() && bd.wrap == r.Bd(o).wrap ==> t.WrapOk())
  {
  }

  lemma WithSlotReads(r: Ring, o: nat, slot: Option<Buf>)
    requires r.Shape() && o < r.n
    ensures var t := r.WithSlot(o, slot);
      && t.Shape()
      && (forall p :: 0 <= p < r.n ==> t.Slot(p) == if p == o then slot else r.Slot(p))
      && (forall p :: 0 <= p < r.n ==> t.Bd(p) == r.Bd(p))
      && (r.WrapOk() ==> t.WrapOk())
  {
  }

  // ----- The state shared by driver and hardware

  /** Where the driver stands: in emacps_sgsend with a frame, or in
      process_sent_bds with a count of descriptors to take back. */
  datatype Pc =
    | Idle
    | SetAddress(frame: seq<Seg>, k: nat)
    | SetLength(frame: seq<Seg>, k: nat)
    | SetSlot(frame: seq<Seg>, k: nat)
    | ClearLast(frame: seq<Seg>, k: nat)
    | SetLast(frame: seq<Seg>)
    | ClearUsed(frame: seq<Seg>, k: nat)
    | ClearFirstUsed(frame: seq<Seg>)
    | Submit(frame: seq<Seg>)
    | ClearAddress(count: nat, k: nat)
    | ResetStatus(count: nat, k: nat)
    | FreeSlot(count: nat, k: nat)
    | Release(count: nat)

  /** The transmitter: its position and the frame it is in the middle of. */
  datatype Engine = Engine(pos: nat, first: nat, busy: bool, fault: bool)

  /** No step reads this. `sent` are the frames published, `retired` the
      descriptors taken back, `live` those published since, of which the hardware
      has fetched `cur` and finished `done`; `fetched` is all it ever read. */
  datatype Log = Log(sent: seq<seq<Seg>>, retired: seq<Item>, live: seq<Item>, done: nat, cur: nat, fetched: seq<Item>)

  datatype State = State(ring: Ring, pc: Pc, engine: Engine, log: Log)

  // ----- The hardware's step

  /** Fetch the descriptor at the transmitter's position. A used bit stops it
      between frames and is an error within one; so are a descriptor without a
      buffer and a position past the ring. After a descriptor marked last, only
      the first one of the frame is marked used. */
  function HwStep(s: State): State {
    var e, bds := s.engine, s.ring.bds;
    if e.pos >= |bds| then s.(engine := e.(fault := true))
    else
      var bd := bds[e.pos];
      var first := if e.busy then e.first else e.pos;
      if bd.used then s.(engine := e.(fault := e.fault || e.busy))
      else if bd.addr.None? || first >= |bds| then s.(engine := e.(fault := true))
      else
        var next := Engine(if bd.wrap then 0 else e.pos + 1, first, !bd.last, e.fault);
        var log := s.log.(cur := s.log.cur + 1, done := if bd.last then s.log.cur + 1 else s.log.done,
                          fetched := s.log.fetched + [Item(bd.addr.value, bd.len, bd.last)]);
        var marked := if bd.last then bds[first := bds[first].(used := true)] else bds;
        State(s.ring.(bds := marked), s.pc, next, log)
  }

  // ----- The driver's steps

  datatype Request = Send(frame: seq<Seg>) | Reclaim

  function Items(frame: seq<Seg>): (items: seq<Item>)
    ensures |items| == |frame|
  {
    seq(|frame|, i requires 0 <= i < |frame| => Item(frame[i].buf, frame[i].len, i == |frame| - 1))
  }

  function Flat(frames: seq<seq<Seg>>): seq<Item> {
    if frames == [] then [] else Flat(frames[..|frames| - 1]) + Items(frames[|frames| - 1])
  }

  predicate PcInBounds(r: Ring, pc: Pc)
    requires r.Shape()
  {
    match pc
    case Idle => true
    case SetAddress(f, k) => k < |f| <= r.n - r.hwCnt
    case SetLength(f, k) => k < |f| <= r.n - r.hwCnt
    case SetSlot(f, k) => k < |f| <= r.n - r.hwCnt
    case ClearLast(f, k) => k < |f| <= r.n - r.hwCnt
    case SetLast(f) => 0 < |f| <= r.n - r.hwCnt
    case ClearUsed(f, k) => 1 <= k < |f| <= r.n - r.hwCnt
    case ClearFirstUsed(f) => 0 < |f| <= r.n - r.hwCnt
    case Submit(f) => 0 < |f| <= r.n - r.hwCnt
    case ClearAddress(c, k) => k < c <= r.hwCnt
    case ResetStatus(c, k) => k < c <= r.hwCnt
    case FreeSlot(c, k) => k < c <= r.hwCnt
    case Release(c) => 0 < c <= r.hwCnt
  }

  /** The offset the driver's next write is about. */
  function Target(r: Ring, pc: Pc): (o: nat)
    requires r.Shape() && PcInBounds(r, pc) && !pc.Idle? && !pc.Submit? && !pc.Release?
    ensures o < r.n
  {
    if pc.SetLast? then r.hwCnt + |pc.frame| - 1
    else if pc.ClearFirstUsed? then r.hwCnt
    else if pc.ClearAddress? || pc.ResetStatus? || pc.FreeSlot? then pc.k
    else r.hwCnt + pc.k
  }

  /** What the write does to the descriptor it is about. */
  function BdWrite(pc: Pc, bd: Bd, atEnd: bool): Bd {
    match pc
    case SetAddress(f, k) => if k < |f| then bd.(addr := Some(f[k].buf)) else bd
    case SetLength(f, k) => if k < |f| then bd.(len := f[k].len) else bd
    case ClearLast(f, k) => bd.(last := false)
    case SetLast(f) => bd.(last := true)
    case ClearUsed(f, k) => bd.(used := false)
    case ClearFirstUsed(f) => bd.(used := false)
    case ClearAddress(c, k) => bd.(addr := None)
    case ResetStatus(c, k) => Bd(bd.addr, 0, true, false, atEnd)
    case _ => bd
  }

  /** What it does to the storage slot beside it. */
  function SlotWrite(pc: Pc, slot: Option<Buf>): Option<Buf> {
    match pc
    case SetSlot(f, k) => if k < |f| then Some(f[k].buf) else slot
    case FreeSlot(c, k) => None
    case _ => slot
  }

  function Write(r: Ring, pc: Pc): Ring
    requires r.Shape() && PcInBounds(r, pc) && !pc.Idle? && !pc.Submit? && !pc.Release?
  {
    var o := Target(r, pc);
    if pc.SetSlot? || pc.FreeSlot? then r.WithSlot(o, SlotWrite(pc, r.Slot(o)))
    else r.WithBd(o, BdWrite(pc, r.Bd(o), At(r.tail, o, r.n) == r.n - 1))
  }

  /** Where the loops of emacps_sgsend and process_sent_bds go next. */
  function Following(pc: Pc): Pc {
    match pc
    case Idle => Idle
    case SetAddress(f, k) => SetLength(f, k)
    case SetLength(f, k) => SetSlot(f, k)
    case SetSlot(f, k) => ClearLast(f, k)
    case ClearLast(f, k) => if k + 1 < |f| then SetAddress(f, k + 1) else SetLast(f)
    case SetLast(f) => if |f| > 1 then ClearUsed(f, 1) else ClearFirstUsed(f)
    case ClearUsed(f, k) => if k + 1 < |f| then ClearUsed(f, k + 1) else ClearFirstUsed(f)
    case ClearFirstUsed(f) => Submit(f)
    case Submit(f) => Idle
    case ClearAddress(c, k) => ResetStatus(c, k)
    case ResetStatus(c, k) => FreeSlot(c, k)
    case FreeSlot(c, k) => if k + 1 < c then ClearAddress(c, k + 1) else Release(c)
    case Release(c) => Idle
  }

  function Published(log: Log, frame: seq<Seg>): Log {
    log.(sent := log.sent + [frame], live := log.live + Items(frame))
  }

  function Retired(log: Log, c: nat): Log
    requires c <= log.done && c <= log.cur && c <= |log.live|
  {
    log.(retired := log.retired + log.live[..c], live := log.live[c..], done := log.done - c, cur := log.cur - c)
  }

  /** The driver's next step; `req` matters only when it is idle. A frame larger
      than the free segment is refused and changes nothing. An occupied slot is
      the "PBUFS not available" failure, a fault here. */
  function DriverStep(s: State, req: Request): State
    requires Inv(s)
  {
    var r, pc := s.ring, s.pc;
    if pc.Idle? then
      match req
      case Send(frame) =>
        if frame == [] || |frame| > r.n - r.hwCnt then s else s.(pc := SetAddress(frame, 0))
      case Reclaim => if r.Scan(0) == 0 then s else s.(pc := ClearAddress(r.Scan(0), 0))
    else if pc.Submit? then s.(ring := r.(hwCnt := r.hwCnt + |pc.frame|), pc := Idle)
    else if pc.Release? then
      State(r.(tail := At(r.tail, pc.count, r.n), hwCnt := r.hwCnt - pc.count), Idle, s.engine,
            Retired(s.log, pc.count))
    else if pc.SetAddress? && r.Slot(Target(r, pc)).Some? then s.(engine := s.engine.(fault := true))
    else State(Write(r, pc), Following(pc), s.engine, if pc.ClearFirstUsed? then Published(s.log, pc.frame) else s.log)
  }

  // ----- The invariant

  /** The frame being written, if it is not published yet. */
  function Writing(pc: Pc): seq<Seg> {
    match pc
    case SetAddress(f, k) => f
    case SetLength(f, k) => f
    case SetSlot(f, k) => f
    case ClearLast(f, k) => f
    case SetLast(f) => f
    case ClearUsed(f, k) => f
    case ClearFirstUsed(f) => f
    case _ => []
  }

  /** How many descriptors of that frame have each of their parts written. The used
      bits cleared are those of places 1 up to `used`: never the first. */
  datatype Progress = Progress(addr: nat, len: nat, slot: nat, last: nat, marked: bool, used: nat)

  function Written(pc: Pc): Progress {
    match pc
    case SetAddress(f, k) => Progress(k, k, k, k, false, 1)
    case SetLength(f, k) => Progress(k + 1, k, k, k, false, 1)
    case SetSlot(f, k) => Progress(k + 1, k + 1, k, k, false, 1)
    case ClearLast(f, k) => Progress(k + 1, k + 1, k + 1, k, false, 1)
    case SetLast(f) => Progress(|f|, |f|, |f|, |f|, false, 1)
    case ClearUsed(f, k) => Progress(|f|, |f|, |f|, |f|, true, k)
    case ClearFirstUsed(f) => Progress(|f|, |f|, |f|, |f|, true, |f|)
    case _ => Progress(0, 0, 0, 0, false, 1)
  }

  /** How many descriptors are being taken back, and how many of those have their
      address, status and slot reset. */
  datatype Undone = Undone(count: nat, addr: nat, status: nat, slot: nat)

  function Cleared(pc: Pc): Undone {
    match pc
    case ClearAddress(c, k) => Undone(c, k, k, k)
    case ResetStatus(c, k) => Undone(c, k + 1, k, k)
    case FreeSlot(c, k) => Undone(c, k + 1, k + 1, k)
    case Release(c) => Undone(c, c, c, c)
    case _ => Undone(0, 0, 0, 0)
  }

  /** A frame ends right before offset o. */
  predicate Boundary(items: seq<Item>, o: nat)
    requires o <= |items|
  {
    o == 0 || items[o - 1].last
  }

  /** A descriptor beyond the published ones, j places after the head of the free
      segment: written as far as the driver has come, and still marked used if it
      is free or the first of its frame. */
  predicate SpareOk(bd: Bd, slot: Option<Buf>, f: seq<Seg>, p: Progress, j: int) {
    && (j < p.addr ==> 0 <= j < |f| && bd.addr == Some(f[j].buf))
    && (j < p.len ==> 0 <= j < |f| && bd.len == f[j].len)
    && (j < p.slot ==> 0 <= j < |f| && slot == Some(f[j].buf))
    && (j >= p.slot ==> slot == None)
    && (j < p.last ==> bd.last == (p.marked && j == |f| - 1))
    && bd.used == !(1 <= j < p.used)
  }

  /** A published descriptor at offset o: it reads as published, and it is marked
      used if and only if it starts a finished frame, until it is taken back. */
  predicate LiveOk(bd: Bd, slot: Option<Buf>, item: Item, finished: bool, u: Undone, o: int) {
    && bd.addr == (if o < u.addr then None else Some(item.buf))
    && slot == (if o < u.slot then None else Some(item.buf))
    && (o < u.status ==> bd.used)
    && (o >= u.status ==> bd.len == item.len && bd.last == item.last && bd.used == finished)
  }

  predicate Spares(r: Ring, pc: Pc, m: nat)
    requires r.Shape()
  {
    forall o :: m <= o < r.n ==> SpareOk(r.Bd(o), r.Slot(o), Writing(pc), Written(pc), o - r.hwCnt)
  }

  function Finished(log: Log, o: nat): bool
    requires o < |log.live|
  {
    o < log.done && Boundary(log.live, o)
  }

  predicate Lives(r: Ring, pc: Pc, log: Log)
    requires r.Shape() && |log.live| <= r.n
  {
    forall o :: 0 <= o < |log.live| ==>
      LiveOk(r.Bd(o), r.Slot(o), log.live[o], Finished(log, o), Cleared(pc), o)
  }

  predicate Counts(r: Ring, pc: Pc, log: Log)
    requires r.Shape()
  {
    && PcInBounds(r, pc)
    && |log.live| == r.hwCnt + (if pc.Submit? then |pc.frame| else 0)
    && |log.live| <= r.n && Cleared(pc).count <= log.done <= log.cur <= |log.live|
    && Boundary(log.live, Cleared(pc).count) && Boundary(log.live, log.done) && Boundary(log.live, |log.live|)
    && (forall o :: log.done <= o < log.cur ==> !log.live[o].last)
  }

  predicate Positions(r: Ring, e: Engine, log: Log) {
    && !e.fault
    && e.pos == At(r.tail, log.cur, r.n)
    && (e.busy <==> log.done < log.cur)
    && (e.busy ==> e.first == At(r.tail, log.done, r.n))
  }

  predicate Account(log: Log)
    requires log.cur <= |log.live|
  {
    && log.retired + log.live == Flat(log.sent)
    && log.fetched == log.retired + log.live[..log.cur]
    && Boundary(log.retired, |log.retired|)
  }

  predicate Inv(s: State) {
    && s.ring.Shape() && s.ring.WrapOk()
    && Counts(s.ring, s.pc, s.log)
    && Positions(s.ring, s.engine, s.log)
    && Account(s.log)
    && Spares(s.ring, s.pc, |s.log.live|)
    && Lives(s.ring, s.pc, s.log)
  }

  /** init_dma and clean_dma_txdescs: every descriptor used, the last one wraps. */
  function Initial(n: nat): State {
    State(Ring(n, seq(n, i => Bd(None, 0, true, false, i == n - 1)), seq(n, i => None), 0, 0), Idle,
          Engine(0, 0, false, false), Log([], [], [], 0, 0, []))
  }

  // ----- Every step keeps the invariant

  lemma InitialInv(n: nat)
    requires n > 0
    ensures Inv(Initial(n))
  {
  }

  lemma UsedStops(s: State)
    requires s.engine.pos < |s.ring.bds| && s.ring.bds[s.engine.pos].used && !s.engine.busy
    ensures HwStep(s) == s
  {
  }

  lemma FreeIsUsed(r: Ring, pc: Pc, m: nat)
    requires r.Shape() && PcInBounds(r, pc) && m < r.n && Spares(r, pc, m)
    requires m == r.hwCnt || Writing(pc) == []
    ensures r.Bd(m).used
  {
    assert SpareOk(r.Bd(m), r.Slot(m), Writing(pc), Written(pc), m - r.hwCnt);
    PcFacts(r, pc);
    hide Writing, Written;
  }

  lemma FullRingIsUsed(r: Ring, pc: Pc, log: Log)
    requires r.Shape() && r.n == |log.live| && Lives(r, pc, log) && 0 < log.done
    ensures r.Bd(0).used
  {
    assert LiveOk(r.Bd(0), r.Slot(0), log.live[0], Finished(log, 0), Cleared(pc), 0);
  }

  lemma NothingPending(r: Ring, pc: Pc, log: Log)
    requires r.Shape() && Counts(r, pc, log) && log.cur == |log.live|
    ensures log.done == log.cur && (log.cur == r.hwCnt || pc.Submit?) && log.cur <= r.n
  {
    hide PcInBounds, Cleared;
  }

  /** Between the published descriptors and the transmitter's position there is
      always a used bit: with nothing left to fetch it stops. */
  lemma HwIdles(s: State)
    requires Inv(s) && s.log.cur == |s.log.live|
    ensures s.engine.pos < |s.ring.bds| && s.ring.bds[s.engine.pos].used && !s.engine.busy
    ensures HwStep(s) == s
  {
    var r, log := s.ring, s.log;
    PcFacts(r, s.pc);
    NothingPending(r, s.pc, log);
    hide Writing, Written, Cleared, PcInBounds, Account, HwStep, Spares, Lives, Counts;
    if log.cur < r.n {
      FreeIsUsed(r, s.pc, log.cur);
    } else {
      FullRingIsUsed(r, s.pc, log);
    }
    UsedStops(s);
  }

  /** A frame is reset front to back, and nothing is being written meanwhile. */
  lemma PcFacts(r: Ring, pc: Pc)
    requires r.Shape() && PcInBounds(r, pc)
    ensures var u := Cleared(pc); u.slot <= u.status <= u.addr <= u.count <= r.hwCnt
    ensures Writing(pc) == [] ==> Written(pc) == Progress(0, 0, 0, 0, false, 1)
    ensures pc.Submit? || Cleared(pc).count > 0 ==> Writing(pc) == []
    ensures |Writing(pc)| <= r.n - r.hwCnt && 1 <= Written(pc).used
  {
  }

  /** The descriptor at the transmitter's position is the next one published. */
  lemma HwReads(s: State)
    requires Inv(s) && s.log.cur < |s.log.live|
    ensures var r, e, item := s.ring, s.engine, s.log.live[s.log.cur];
      && e.pos < |r.bds| && r.bds[e.pos] == r.Bd(s.log.cur)
      && r.bds[e.pos] == Bd(Some(item.buf), item.len, false, item.last, e.pos == r.n - 1)
      && (if e.busy then e.first else e.pos) == At(r.tail, s.log.done, r.n)
  {
    PcFacts(s.ring, s.pc);
    hide Writing, Written, Cleared, PcInBounds, Account;
    var r, log := s.ring, s.log;
    assert LiveOk(r.Bd(log.cur), r.Slot(log.cur), log.live[log.cur], Finished(log, log.cur), Cleared(s.pc), log.cur);
  }

  function LogFetched(log: Log): Log
    requires log.cur < |log.live|
  {
    log.(cur := log.cur + 1, done := if log.live[log.cur].last then log.cur + 1 else log.done,
         fetched := log.fetched + [log.live[log.cur]])
  }

  function Marked(r: Ring, o: nat): Ring
    requires r.Shape() && o < r.n
  {
    r.WithBd(o, r.Bd(o).(used := true))
  }

  /** A fetch logs the next published descriptor and, at the end of a frame, marks
      the frame's first one. */
  lemma HwFetchForm(s: State)
    requires Inv(s) && s.log.cur < |s.log.live|
    ensures var t, log := HwStep(s), s.log;
      && t.pc == s.pc && t.log == LogFetched(log)
      && t.ring == (if log.live[log.cur].last then Marked(s.ring, log.done) else s.ring)
      && Positions(t.ring, t.engine, t.log)
  {
    HwReads(s);
    hide Writing, Written, Cleared, PcInBounds, Account, Spares, Lives;
  }

  lemma FetchKeepsCounts(s: State)
    requires Inv(s) && s.log.cur < |s.log.live|
    ensures Counts(s.ring, s.pc, LogFetched(s.log)) && Account(LogFetched(s.log))
  {
    hide Writing, Written, Cleared, PcInBounds, Spares, Lives, Positions, Flat;
    var log := s.log;
    assert log.live[..log.cur + 1] == log.live[..log.cur] + [log.live[log.cur]];
  }

  /** Marking the frame's first descriptor is what makes it count as finished. */
  lemma MarkedLive(log: Log, o: nat, bd: Bd, slot: Option<Buf>, u: Undone)
    requires log.done <= log.cur < |log.live| && log.live[log.cur].last && o < |log.live|
    requires Boundary(log.live, log.done) && forall k :: log.done <= k < log.cur ==> !log.live[k].last
    requires u.status <= log.done && LiveOk(bd, slot, log.live[o], Finished(log, o), u, o)
    ensures LiveOk(if o == log.done then bd.(used := true) else bd, slot, log.live[o],
                   Finished(LogFetched(log), o), u, o)
  {
  }

  lemma MarkKeepsLives(r: Ring, pc: Pc, log: Log)
    requires r.Shape() && Counts(r, pc, log) && Lives(r, pc, log)
    requires log.cur < |log.live| && log.live[log.cur].last
    ensures Marked(r, log.done).Shape() && Lives(Marked(r, log.done), pc, LogFetched(log))
  {
    PcFacts(r, pc);
    WithBdReads(r, log.done, r.Bd(log.done).(used := true));
    hide Writing, Written, Cleared, PcInBounds, At, LiveOk, Finished;
    var t := Marked(r, log.done);
    forall o | 0 <= o < |log.live|
      ensures LiveOk(t.Bd(o), t.Slot(o), log.live[o], Finished(LogFetched(log), o), Cleared(pc), o)
    {
      MarkedLive(log, o, r.Bd(o), r.Slot(o), Cleared(pc));
    }
  }

  lemma MarkKeepsSpares(r: Ring, pc: Pc, o: nat, m: nat)
    requires r.Shape() && r.WrapOk() && o < m <= r.n && Spares(r, pc, m)
    ensures Marked(r, o).Shape() && Marked(r, o).WrapOk() && Spares(Marked(r, o), pc, m)
  {
    WithBdReads(r, o, r.Bd(o).(used := true));
    hide Writing, Written, At, SpareOk;
  }

  lemma HwFetches(s: State)
    requires Inv(s) && s.log.cur < |s.log.live|
    ensures Inv(HwStep(s))
  {
    HwFetchForm(s);
    FetchKeepsCounts(s);
    if s.log.live[s.log.cur].last {
      MarkKeepsLives(s.ring, s.pc, s.log);
      MarkKeepsSpares(s.ring, s.pc, s.log.done, |s.log.live|);
    }
    hide Writing, Written, Cleared, PcInBounds, Account, Positions, At, Spares, HwStep;
  }

  predicate Writes(pc: Pc) {
    !pc.Idle? && !pc.Submit? && !pc.Release?
  }

  /** A write is seen at its target only. */
  lemma WriteReads(r: Ring, pc: Pc)
    requires r.Shape() && r.WrapOk() && PcInBounds(r, pc) && Writes(pc)
    ensures var t, w := Write(r, pc), Target(r, pc);
      && t.Shape() && t.WrapOk() && t.n == r.n && t.tail == r.tail && t.hwCnt == r.hwCnt
      && (forall o :: 0 <= o < r.n ==>
            t.Bd(o) == if o == w then BdWrite(pc, r.Bd(w), At(r.tail, w, r.n) == r.n - 1) else r.Bd(o))
      && (forall o :: 0 <= o < r.n ==> t.Slot(o) == if o == w then SlotWrite(pc, r.Slot(w)) else r.Slot(o))
  {
    var w := Target(r, pc);
    if pc.SetSlot? || pc.FreeSlot? {
      WithSlotReads(r, w, SlotWrite(pc, r.Slot(w)));
    } else {
      WithBdReads(r, w, BdWrite(pc, r.Bd(w), At(r.tail, w, r.n) == r.n - 1));
    }
  }

  /** The writes of emacps_sgsend before the publication. */
  predicate Sends(pc: Pc) {
    pc.SetAddress? || pc.SetLength? || pc.SetSlot? || pc.ClearLast? || pc.SetLast? || pc.ClearUsed?
  }

  /** The writes of process_sent_bds. */
  predicate TakesBack(pc: Pc) {
    pc.ClearAddress? || pc.ResetStatus? || pc.FreeSlot?
  }

  /** A sending write advances the progress of the frame by exactly its part. */
  lemma SendAdvances(pc: Pc, bd: Bd, slot: Option<Buf>, j: int, atEnd: bool)
    requires Sends(pc) && SpareOk(bd, slot, Writing(pc), Written(pc), j)
    requires pc.SetLast? ==> |pc.frame| > 0
    requires !pc.SetLast? ==> pc.k < |pc.frame|
    requires pc.ClearUsed? ==> 1 <= pc.k
    ensures var hit := j == if pc.SetLast? then |pc.frame| - 1 else pc.k;
      SpareOk(if hit then BdWrite(pc, bd, atEnd) else bd, if hit then SlotWrite(pc, slot) else slot,
              Writing(Following(pc)), Written(Following(pc)), j)
  {
  }

  /** A resetting write undoes exactly its part of the descriptor. */
  lemma TakeAdvances(pc: Pc, bd: Bd, slot: Option<Buf>, item: Item, finished: bool, o: nat, atEnd: bool)
    requires TakesBack(pc) && pc.k < pc.count && LiveOk(bd, slot, item, finished, Cleared(pc), o)
    ensures LiveOk(if o == pc.k then BdWrite(pc, bd, atEnd) else bd, if o == pc.k then SlotWrite(pc, slot) else slot,
                   item, finished, Cleared(Following(pc)), o)
  {
  }

  /** Rings that read the same from offset a to b. */
  predicate SameOn(r: Ring, t: Ring, a: nat, b: nat)
    requires r.Shape() && t.Shape() && b <= r.n && t.n == r.n
  {
    forall o :: a <= o < b ==> t.Bd(o) == r.Bd(o) && t.Slot(o) == r.Slot(o)
  }

  lemma SameLives(r: Ring, t: Ring, pc: Pc, next: Pc, log: Log)
    requires r.Shape() && t.Shape() && t.n == r.n && |log.live| <= r.n && SameOn(r, t, 0, |log.live|)
    requires Lives(r, pc, log) && Cleared(pc) == Cleared(next)
    ensures Lives(t, next, log)
  {
    hide At, LiveOk, Finished, Cleared;
  }

  lemma SameSpares(r: Ring, t: Ring, pc: Pc, next: Pc, m: nat)
    requires r.Shape() && t.Shape() && t.n == r.n && m <= r.n && t.hwCnt == r.hwCnt && SameOn(r, t, m, r.n)
    requires Spares(r, pc, m) && Writing(pc) == Writing(next) && Written(pc) == Written(next)
    ensures Spares(t, next, m)
  {
    hide At, SpareOk, Writing, Written;
  }

  lemma SendKeepsSpare(r: Ring, pc: Pc, o: nat)
    requires r.Shape() && r.WrapOk() && PcInBounds(r, pc) && Sends(pc) && r.hwCnt <= o < r.n
    requires SpareOk(r.Bd(o), r.Slot(o), Writing(pc), Written(pc), o - r.hwCnt)
    ensures var t := Write(r, pc);
      t.Shape() && o < t.n && SpareOk(t.Bd(o), t.Slot(o), Writing(Following(pc)), Written(Following(pc)), o - r.hwCnt)
  {
    WriteReads(r, pc);
    var w := Target(r, pc);
    assert w - r.hwCnt == if pc.SetLast? then |pc.frame| - 1 else pc.k;
    SendAdvances(pc, r.Bd(o), r.Slot(o), o - r.hwCnt, At(r.tail, w, r.n) == r.n - 1);
    hide *;
  }

  lemma SendKeepsSpares(r: Ring, pc: Pc)
    requires r.Shape() && r.WrapOk() && PcInBounds(r, pc) && Sends(pc) && Spares(r, pc, r.hwCnt)
    ensures Write(r, pc).Shape() && Spares(Write(r, pc), Following(pc), r.hwCnt)
  {
    WriteReads(r, pc);
    hide At, Write, BdWrite, SlotWrite, Written, Writing, Following, SpareOk, Sends;
    forall o | r.hwCnt <= o < r.n
      ensures SpareOk(Write(r, pc).Bd(o), Write(r, pc).Slot(o),
                      Writing(Following(pc)), Written(Following(pc)), o - r.hwCnt)
    {
      assert SpareOk(r.Bd(o), r.Slot(o), Writing(pc), Written(pc), o - r.hwCnt);
      SendKeepsSpare(r, pc, o);
    }
  }

  lemma SendFacts(r: Ring, pc: Pc)
    requires r.Shape() && PcInBounds(r, pc) && Sends(pc)
    ensures Cleared(pc) == Cleared(Following(pc)) && Target(r, pc) >= r.hwCnt
    ensures Writes(pc) && !pc.Submit?
  {
  }

  lemma SendKeepsRing(r: Ring, pc: Pc, log: Log)
    requires r.Shape() && r.WrapOk() && Counts(r, pc, log) && Sends(pc)
    requires Spares(r, pc, |log.live|) && Lives(r, pc, log)
    ensures var t := Write(r, pc);
      && t.Shape() && Spares(t, Following(pc), |log.live|) && Lives(t, Following(pc), log)
  {
    hide At, Write, Spares, Lives, Following, Cleared, Target, PcInBounds, Sends, BdWrite, SlotWrite, Boundary;
    SendFacts(r, pc);
    WriteReads(r, pc);
    SendKeepsSpares(r, pc);
    SameLives(r, Write(r, pc), pc, Following(pc), log);
  }

  lemma TakeKeepsLives(r: Ring, pc: Pc, log: Log)
    requires r.Shape() && r.WrapOk() && PcInBounds(r, pc) && TakesBack(pc)
    requires |log.live| <= r.n && Lives(r, pc, log)
    ensures Write(r, pc).Shape() && Lives(Write(r, pc), Following(pc), log)
  {
    WriteReads(r, pc);
    var t, w := Write(r, pc), Target(r, pc);
    forall o | 0 <= o < |log.live|
      ensures LiveOk(t.Bd(o), t.Slot(o), log.live[o], Finished(log, o), Cleared(Following(pc)), o)
    {
      hide At, Write, BdWrite, SlotWrite, Cleared, Following, Ring.Bd, Ring.Slot, LiveOk, Finished;
      assert LiveOk(r.Bd(o), r.Slot(o), log.live[o], Finished(log, o), Cleared(pc), o);
      TakeAdvances(pc, r.Bd(o), r.Slot(o), log.live[o], Finished(log, o), o, At(r.tail, w, r.n) == r.n - 1);
    }
  }

  lemma TakeFacts(r: Ring, pc: Pc)
    requires r.Shape() && PcInBounds(r, pc) && TakesBack(pc)
    ensures Writing(pc) == Writing(Following(pc)) && Written(pc) == Written(Following(pc))
    ensures Target(r, pc) < r.hwCnt && Writes(pc) && !pc.Submit?
  {
  }

  lemma TakeKeepsRing(r: Ring, pc: Pc, log: Log)
    requires r.Shape() && r.WrapOk() && Counts(r, pc, log) && TakesBack(pc)
    requires Spares(r, pc, |log.live|) && Lives(r, pc, log)
    ensures var t := Write(r, pc);
      && t.Shape() && Spares(t, Following(pc), |log.live|) && Lives(t, Following(pc), log)
  {
    hide At, Write, Spares, Lives, Following, Writing, Written, Target, PcInBounds, TakesBack, BdWrite, SlotWrite,
      Boundary;
    TakeFacts(r, pc);
    WriteReads(r, pc);
    TakeKeepsLives(r, pc, log);
    SameSpares(r, Write(r, pc), pc, Following(pc), |log.live|);
  }

  lemma FollowingCounts(r: Ring, t: Ring, pc: Pc, log: Log)
    requires r.Shape() && Counts(r, pc, log) && (Sends(pc) || TakesBack(pc))
    requires t.Shape() && t.n == r.n && t.hwCnt == r.hwCnt
    ensures Counts(t, Following(pc), log)
  {
  }

  /** The storage slot of a free descriptor is always empty. */
  lemma SlotIsFree(s: State)
    requires Inv(s) && s.pc.SetAddress?
    ensures s.ring.Slot(Target(s.ring, s.pc)) == None
  {
    var r, o := s.ring, Target(s.ring, s.pc);
    assert SpareOk(r.Bd(o), r.Slot(o), Writing(s.pc), Written(s.pc), o - r.hwCnt);
  }

  lemma WriteForm(s: State, req: Request)
    requires Inv(s) && (Sends(s.pc) || TakesBack(s.pc))
    ensures DriverStep(s, req) == State(Write(s.ring, s.pc), Following(s.pc), s.engine, s.log)
  {
    if s.pc.SetAddress? {
      SlotIsFree(s);
    }
    hide Inv, Write, Following, PcInBounds;
  }

  lemma WriteKeepsInv(s: State, req: Request)
    requires Inv(s) && (Sends(s.pc) || TakesBack(s.pc))
    ensures Inv(DriverStep(s, req))
  {
    var r := s.ring;
    WriteForm(s, req);
    WriteReads(r, s.pc);
    FollowingCounts(r, Write(r, s.pc), s.pc, s.log);
    if Sends(s.pc) {
      SendKeepsRing(r, s.pc, s.log);
    } else {
      TakeKeepsRing(r, s.pc, s.log);
    }
    hide At, Write, Spares, Lives, Account, Counts, Following, DriverStep, Sends, TakesBack;
  }

  // ----- Publication: the first descriptor's used bit is cleared last

  lemma ItemsEnd(frame: seq<Seg>)
    requires frame != []
    ensures Boundary(Items(frame), |frame|)
  {
  }

  lemma PublishKeepsCounts(r: Ring, pc: Pc, log: Log)
    requires r.Shape() && Counts(r, pc, log) && pc.ClearFirstUsed? && Account(log)
    ensures Counts(r, Submit(pc.frame), Published(log, pc.frame)) && Account(Published(log, pc.frame))
  {
    ItemsEnd(pc.frame);
    var p := Published(log, pc.frame);
    assert p.sent[..|log.sent|] == log.sent;
    assert p.live[..log.cur] == log.live[..log.cur];
    assert log.retired + p.live == log.retired + log.live + Items(pc.frame);
  }

  /** Every part of every descriptor of the frame is in place by then. */
  lemma PublishedLive(bd: Bd, slot: Option<Buf>, f: seq<Seg>, j: int)
    requires 0 <= j < |f| && SpareOk(bd, slot, f, Written(ClearFirstUsed(f)), j)
    ensures LiveOk(if j == 0 then bd.(used := false) else bd, slot, Items(f)[j], false, Undone(0, 0, 0, 0), j)
  {
  }

  lemma PublishKeepsLive(r: Ring, pc: Pc, log: Log, o: nat)
    requires r.Shape() && r.WrapOk() && PcInBounds(r, pc) && pc.ClearFirstUsed? && r.hwCnt == |log.live|
    requires log.done <= |log.live| && o < |Published(log, pc.frame).live| <= r.n
    requires o < |log.live| ==> LiveOk(r.Bd(o), r.Slot(o), log.live[o], Finished(log, o), Cleared(pc), o)
    requires o >= |log.live| ==> SpareOk(r.Bd(o), r.Slot(o), pc.frame, Written(pc), o - |log.live|)
    ensures var t, p := Write(r, pc), Published(log, pc.frame);
      t.Shape() && o < t.n && LiveOk(t.Bd(o), t.Slot(o), p.live[o], Finished(p, o), Cleared(Submit(pc.frame)), o)
  {
    WriteReads(r, pc);
    if o >= |log.live| {
      PublishedLive(r.Bd(o), r.Slot(o), pc.frame, o - |log.live|);
    }
    hide At, Write, Written, PcInBounds, SpareOk;
  }

  lemma PublishSizes(r: Ring, pc: Pc, log: Log)
    requires r.Shape() && r.WrapOk() && Counts(r, pc, log) && pc.ClearFirstUsed?
    ensures |Published(log, pc.frame).live| == |log.live| + |pc.frame| <= r.n && r.hwCnt == |log.live|
    ensures PcInBounds(r, pc) && Writes(pc) && Writing(pc) == pc.frame && log.done <= |log.live|
    ensures Write(r, pc).Shape() && Write(r, pc).n == r.n
  {
    WriteReads(r, pc);
  }

  lemma PublishKeepsLives(r: Ring, pc: Pc, log: Log)
    requires r.Shape() && r.WrapOk() && Counts(r, pc, log) && pc.ClearFirstUsed?
    requires Spares(r, pc, |log.live|) && Lives(r, pc, log)
    ensures var t := Write(r, pc);
      t.Shape() && |Published(log, pc.frame).live| <= t.n && Lives(t, Submit(pc.frame), Published(log, pc.frame))
  {
    hide At, Write, SpareOk, LiveOk, Writing, Written, Cleared, Finished, Published, Ring.Bd, Ring.Slot, Boundary,
      Spares, PcInBounds, Counts;
    PublishSizes(r, pc, log);
    var t, p, m := Write(r, pc), Published(log, pc.frame), |log.live|;
    forall o | 0 <= o < |p.live|
      ensures LiveOk(t.Bd(o), t.Slot(o), p.live[o], Finished(p, o), Cleared(Submit(pc.frame)), o)
    {
      if o >= m {
        SpareAt(r, pc, m, o);
      }
      PublishKeepsLive(r, pc, log, o);
    }
  }

  lemma SpareAt(r: Ring, pc: Pc, m: nat, o: nat)
    requires r.Shape() && m <= o < r.n && Spares(r, pc, m)
    ensures SpareOk(r.Bd(o), r.Slot(o), Writing(pc), Written(pc), o - r.hwCnt)
  {
  }

  lemma PublishKeepsSpares(r: Ring, pc: Pc)
    requires r.Shape() && r.WrapOk() && PcInBounds(r, pc) && pc.ClearFirstUsed?
    requires Spares(r, pc, r.hwCnt)
    ensures Write(r, pc).Shape() && Spares(Write(r, pc), Submit(pc.frame), r.hwCnt + |pc.frame|)
  {
    WriteReads(r, pc);
    var t := Write(r, pc);
    forall o | r.hwCnt + |pc.frame| <= o < r.n
      ensures SpareOk(t.Bd(o), t.Slot(o), [], Written(Submit(pc.frame)), o - r.hwCnt)
    {
      assert SpareOk(r.Bd(o), r.Slot(o), pc.frame, Written(pc), o - r.hwCnt);
    }
  }

  lemma PublishForm(s: State, req: Request)
    requires Inv(s) && s.pc.ClearFirstUsed?
    ensures DriverStep(s, req)
         == State(Write(s.ring, s.pc), Submit(s.pc.frame), s.engine, Published(s.log, s.pc.frame))
  {
    hide Inv, Write, PcInBounds;
  }

  lemma PublishKeepsInv(s: State, req: Request)
    requires Inv(s) && s.pc.ClearFirstUsed?
    ensures Inv(DriverStep(s, req))
  {
    var r := s.ring;
    PublishForm(s, req);
    WriteReads(r, s.pc);
    PublishKeepsCounts(r, s.pc, s.log);
    PublishKeepsLives(r, s.pc, s.log);
    PublishKeepsSpares(r, s.pc);
    hide At, Write, Spares, Lives, Account, DriverStep, PcInBounds, Items, Boundary;
  }

  // ----- Taking descriptors back

  /** Moving the head renumbers the offsets. */
  lemma ReleaseReads(r: Ring, c: nat)
    requires r.Shape() && r.WrapOk() && 0 < c <= r.hwCnt
    ensures var t := r.(tail := At(r.tail, c, r.n), hwCnt := r.hwCnt - c);
      && t.Shape() && t.WrapOk()
      && (forall o :: 0 <= o < r.n - c ==> t.Bd(o) == r.Bd(o + c) && t.Slot(o) == r.Slot(o + c))
      && (forall o :: r.n - c <= o < r.n ==> t.Bd(o) == r.Bd(o + c - r.n) && t.Slot(o) == r.Slot(o + c - r.n))
  {
  }

  function Released(r: Ring, c: nat): Ring
    requires r.Shape() && c <= r.hwCnt
  {
    r.(tail := At(r.tail, c, r.n), hwCnt := r.hwCnt - c)
  }

  lemma ReleaseKeepsLives(r: Ring, c: nat, log: Log)
    requires r.Shape() && r.WrapOk() && 0 < c <= r.hwCnt
    requires c <= log.done <= log.cur <= |log.live| <= r.n && Boundary(log.live, c)
    requires Lives(r, Release(c), log)
    ensures Released(r, c).Shape() && Lives(Released(r, c), Idle, Retired(log, c))
  {
    hide At, LiveOk, Finished, Cleared;
    ReleaseReads(r, c);
    var t, q := Released(r, c), Retired(log, c);
    forall o | 0 <= o < |q.live| ensures LiveOk(t.Bd(o), t.Slot(o), q.live[o], Finished(q, o), Cleared(Idle), o) {
      LiveAt(r, Release(c), log, o + c);
      Renumbered(r.Bd(o + c), r.Slot(o + c), log, c, o);
    }
  }

  lemma LiveAt(r: Ring, pc: Pc, log: Log, o: nat)
    requires r.Shape() && o < |log.live| <= r.n && Lives(r, pc, log)
    ensures LiveOk(r.Bd(o), r.Slot(o), log.live[o], Finished(log, o), Cleared(pc), o)
  {
  }

  lemma Renumbered(bd: Bd, slot: Option<Buf>, log: Log, c: nat, o: nat)
    requires c <= log.done <= log.cur <= |log.live| && Boundary(log.live, c) && o + c < |log.live|
    requires LiveOk(bd, slot, log.live[o + c], Finished(log, o + c), Cleared(Release(c)), o + c)
    ensures LiveOk(bd, slot, Retired(log, c).live[o], Finished(Retired(log, c), o), Cleared(Idle), o)
  {
  }

  /** What was taken back is free again. */
  lemma ResetIsSpare(bd: Bd, slot: Option<Buf>, item: Item, finished: bool, c: nat, p: nat, j: nat)
    requires p < c && LiveOk(bd, slot, item, finished, Cleared(Release(c)), p)
    ensures SpareOk(bd, slot, [], Written(Idle), j)
  {
  }

  lemma ReleaseKeepsSpares(r: Ring, c: nat, log: Log)
    requires r.Shape() && r.WrapOk() && 0 < c <= r.hwCnt == |log.live| && Lives(r, Release(c), log)
    requires Spares(r, Release(c), |log.live|)
    ensures Released(r, c).Shape() && Spares(Released(r, c), Idle, |log.live| - c)
  {
    ReleaseReads(r, c);
    var t := Released(r, c);
    hide At, SpareOk, LiveOk, Ring.Bd, Ring.Slot, Finished;
    forall o | |log.live| - c <= o < r.n ensures SpareOk(t.Bd(o), t.Slot(o), [], Written(Idle), o - t.hwCnt) {
      if o < r.n - c {
        SpareAt(r, Release(c), |log.live|, o + c);
      } else {
        var p := o + c - r.n;
        ResetIsSpare(r.Bd(p), r.Slot(p), log.live[p], Finished(log, p), c, p, o - t.hwCnt);
      }
    }
  }

  lemma ReleaseKeepsCounts(r: Ring, c: nat, log: Log)
    requires r.Shape() && Counts(r, Release(c), log) && Released(r, c).Shape()
    ensures Counts(Released(r, c), Idle, Retired(log, c))
  {
  }

  lemma ReleaseKeepsAccount(c: nat, log: Log)
    requires c <= log.done <= log.cur <= |log.live| && Boundary(log.live, c) && Account(log)
    ensures Account(Retired(log, c))
  {
    hide Flat;
    var q := Retired(log, c);
    assert log.live[..c] + log.live[c..] == log.live;
    assert q.retired + q.live == log.retired + log.live;
    assert q.retired + q.live[..q.cur] == log.retired + log.live[..log.cur];
  }

  lemma ReleaseKeepsPositions(r: Ring, e: Engine, c: nat, log: Log)
    requires r.Shape() && Counts(r, Release(c), log) && Positions(r, e, log)
    ensures Positions(Released(r, c), e, Retired(log, c))
  {
  }

  lemma ReleaseForm(s: State, req: Request)
    requires Inv(s) && s.pc.Release?
    ensures DriverStep(s, req)
         == State(Released(s.ring, s.pc.count), Idle, s.engine, Retired(s.log, s.pc.count))
  {
    hide At, Spares, Lives, Account;
  }

  lemma ReleaseKeepsInv(s: State, req: Request)
    requires Inv(s) && s.pc.Release?
    ensures Inv(DriverStep(s, req))
  {
    var r, c := s.ring, s.pc.count;
    ReleaseForm(s, req);
    ReleaseReads(r, c);
    ReleaseKeepsLives(r, c, s.log);
    ReleaseKeepsSpares(r, c, s.log);
    ReleaseKeepsCounts(r, c, s.log);
    ReleaseKeepsAccount(c, s.log);
    ReleaseKeepsPositions(r, s.engine, c, s.log);
    hide At, Spares, Lives, Account, Counts, Positions, DriverStep;
  }

  // ----- Starting and ending a call

  lemma LiveReads(r: Ring, log: Log, o: nat)
    requires r.Shape() && |log.live| <= r.n && o < |log.live| && Lives(r, Idle, log)
    ensures r.Bd(o).last == log.live[o].last && r.Bd(o).used == Finished(log, o)
  {
    assert LiveOk(r.Bd(o), r.Slot(o), log.live[o], Finished(log, o), Cleared(Idle), o);
  }

  lemma {:induction false} EndFound(r: Ring, log: Log, o: nat, b: nat)
    requires r.Shape() && |log.live| == r.hwCnt && Lives(r, Idle, log)
    requires o < b <= |log.live| && Boundary(log.live, b)
    ensures r.ToLast(o) < b && log.live[r.ToLast(o)].last
    decreases b - o
  {
    hide At, Lives, Ring.Bd;
    LiveReads(r, log, o);
    if !log.live[o].last {
      EndFound(r, log, o + 1, b);
    }
  }

  /** The library finds exactly the frames that the hardware has finished. */
  lemma {:induction false} ScanFindsDone(r: Ring, log: Log, o: nat)
    requires r.Shape() && Counts(r, Idle, log) && Lives(r, Idle, log)
    requires o <= log.done && Boundary(log.live, o)
    ensures r.Scan(o) == log.done
    decreases log.done - o
  {
    hide At, Lives, Ring.Bd;
    if o < log.done {
      LiveReads(r, log, o);
      EndFound(r, log, o, log.done);
      ScanFindsDone(r, log, r.ToLast(o) + 1);
    } else if o < r.hwCnt {
      LiveReads(r, log, o);
    }
  }

  lemma SameRing(r: Ring, pc: Pc, next: Pc, log: Log)
    requires r.Shape() && |log.live| <= r.n && Lives(r, pc, log) && Spares(r, pc, |log.live|)
    requires Cleared(pc).(count := 0) == Cleared(next).(count := 0)
    requires Written(pc) == Written(next) == Progress(0, 0, 0, 0, false, 1)
    ensures Lives(r, next, log) && Spares(r, next, |log.live|)
  {
    forall o | 0 <= o < |log.live| ensures LiveOk(r.Bd(o), r.Slot(o), log.live[o], Finished(log, o), Cleared(next), o) {
      assert LiveOk(r.Bd(o), r.Slot(o), log.live[o], Finished(log, o), Cleared(pc), o);
    }
    forall o | |log.live| <= o < r.n
      ensures SpareOk(r.Bd(o), r.Slot(o), Writing(next), Written(next), o - r.hwCnt)
    {
      SpareAt(r, pc, |log.live|, o);
    }
  }

  lemma IdleKeepsInv(s: State, req: Request)
    requires Inv(s) && s.pc.Idle?
    ensures Inv(DriverStep(s, req))
  {
    ScanFindsDone(s.ring, s.log, 0);
    SameRing(s.ring, Idle, DriverStep(s, req).pc, s.log);
    hide Spares, Lives, Account, Positions;
  }

  lemma SubmitKeepsInv(s: State, req: Request)
    requires Inv(s) && s.pc.Submit?
    ensures Inv(DriverStep(s, req))
  {
    hide At, SpareOk, LiveOk, Account, PcInBounds, Finished, Boundary;
    var r, t := s.ring, DriverStep(s, req).ring;
    SubmitBounds(r, s.pc);
    SameRing(r, s.pc, Idle, s.log);
    forall o | |s.log.live| <= o < t.n ensures SpareOk(t.Bd(o), t.Slot(o), [], Written(Idle), o - t.hwCnt) {
      SpareAt(r, Idle, |s.log.live|, o);
      SpareAnywhere(r.Bd(o), r.Slot(o), o - r.hwCnt, o - t.hwCnt);
    }
    forall o | 0 <= o < |s.log.live|
      ensures LiveOk(t.Bd(o), t.Slot(o), s.log.live[o], Finished(s.log, o), Cleared(Idle), o)
    {
      LiveAt(r, Idle, s.log, o);
    }
  }

  lemma SubmitBounds(r: Ring, pc: Pc)
    requires r.Shape() && PcInBounds(r, pc) && pc.Submit?
    ensures 0 < |pc.frame| <= r.n - r.hwCnt
    ensures forall t: Ring :: t.Shape() ==> PcInBounds(t, Idle)
  {
  }

  lemma SpareAnywhere(bd: Bd, slot: Option<Buf>, i: int, j: int)
    requires SpareOk(bd, slot, [], Written(Idle), i) && i >= 0 && j >= 0
    ensures SpareOk(bd, slot, [], Written(Idle), j)
  {
  }

  lemma DriverKeepsInv(s: State, req: Request)
    requires Inv(s)
    ensures Inv(DriverStep(s, req))
  {
    hide Inv, DriverStep;
    if Sends(s.pc) || TakesBack(s.pc) {
      WriteKeepsInv(s, req);
    } else if s.pc.ClearFirstUsed? {
      PublishKeepsInv(s, req);
    } else if s.pc.Release? {
      ReleaseKeepsInv(s, req);
    } else if s.pc.Submit? {
      SubmitKeepsInv(s, req);
    } else {
      IdleKeepsInv(s, req);
    }
  }

  lemma HwKeepsInv(s: State)
    requires Inv(s)
    ensures Inv(HwStep(s))
  {
    if s.log.cur < |s.log.live| {
      HwFetches(s);
    } else {
      HwIdles(s);
    }
    hide HwStep, Spares, Lives, Account, Positions, PcInBounds;
  }

  // ----- Every run

  /** The scheduler lets the hardware or the driver take the next step. */
  datatype Action = Hw | Driver(req: Request)

  function Step(s: State, a: Action): (t: State)
    requires Inv(s)
    ensures Inv(t)
  {
    HwKeepsInv(s);
    match a
    case Hw => HwStep(s)
    case Driver(req) => DriverKeepsInv(s, req); DriverStep(s, req)
  }

  function Run(n: nat, actions: seq<Action>): (s: State)
    requires n > 0
    ensures Inv(s)
    decreases |actions|
  {
    InitialInv(n);
    if actions == [] then Initial(n) else Step(Run(n, actions[..|actions| - 1]), actions[|actions| - 1])
  }

  /** Under every interleaving, no step of the hardware goes wrong, no occupied slot
      is met, and what the hardware has read is a prefix of what was published. */
  lemma HandoffIsSafe(n: nat, actions: seq<Action>)
    requires n > 0
    ensures var s := Run(n, actions);
      && !s.engine.fault
      && s.log.fetched <= Flat(s.log.sent)
  {
    hide Run;
    var s := Run(n, actions);
    assert s.log.retired + s.log.live[..s.log.cur] <= s.log.retired + s.log.live;
  }

  /** A stream of descriptors cut at the end of a frame is a whole number of frames;
      cut elsewhere it ends within the next one. */
  lemma {:induction false} CutFrames(frames: seq<seq<Seg>>, p: nat) returns (m: nat)
    requires p <= |Flat(frames)|
    ensures m <= |frames| && Flat(frames[..m]) <= Flat(frames)[..p]
    ensures m < |frames| ==> p < |Flat(frames[..m + 1])|
    ensures m == |frames| ==> p == |Flat(frames)|
    ensures Boundary(Flat(frames), p) ==> Flat(frames[..m]) == Flat(frames)[..p]
    decreases |frames|
  {
    if frames == [] {
      m := 0;
    } else {
      var k := |frames| - 1;
      var before, items := Flat(frames[..k]), Items(frames[k]);
      assert frames[..|frames|] == frames;
      if p == |Flat(frames)| {
        m := |frames|;
      } else if p < |before| {
        m := CutFrames(frames[..k], p);
        assert frames[..k][..m] == frames[..m];
        if m < k {
          assert frames[..k][..m + 1] == frames[..m + 1];
        }
        assert Flat(frames)[..p] == before[..p];
      } else {
        m := k;
        assert Flat(frames)[..p] == before + items[..p - |before|];
      }
    }
  }

  /** Between frames the hardware has transmitted exactly the first m frames that the
      driver published, whole and in order; within a frame, those and a proper part
      of the next. */
  lemma TransmitsFrames(n: nat, actions: seq<Action>)
    requires n > 0
    ensures var s := Run(n, actions);
      exists m: nat :: m <= |s.log.sent| && Flat(s.log.sent[..m]) <= s.log.fetched
        && (if s.engine.busy then m < |s.log.sent| && |s.log.fetched| < |Flat(s.log.sent[..m + 1])|
            else s.log.fetched == Flat(s.log.sent[..m]))
  {
    hide Run;
    HandoffIsSafe(n, actions);
    var s := Run(n, actions);
    FetchBoundary(s);
    var m := CutFrames(s.log.sent, |s.log.fetched|);
  }

  /** How many descriptors the first j frames take. */
  function Length(frames: seq<seq<Seg>>): nat {
    if frames == [] then 0 else Length(frames[..|frames| - 1]) + |frames[|frames| - 1]|
  }

  /** The stream of descriptors holds every buffer of every frame in its place, with
      the length that its descriptor was given, and marks exactly the frames' ends. */
  lemma {:induction false} StreamAt(frames: seq<seq<Seg>>, j: nat, k: nat)
    requires j < |frames| && k < |frames[j]|
    ensures |Flat(frames)| == Length(frames) && Length(frames[..j]) + |frames[j]| <= Length(frames)
    ensures Flat(frames)[Length(frames[..j]) + k] == Item(frames[j][k].buf, frames[j][k].len, k == |frames[j]| - 1)
  {
    var n := |frames| - 1;
    StreamLength(frames);
    StreamLength(frames[..n]);
    if j < n {
      StreamAt(frames[..n], j, k);
      assert frames[..n][..j] == frames[..j];
    }
  }

  lemma {:induction false} StreamLength(frames: seq<seq<Seg>>)
    ensures |Flat(frames)| == Length(frames)
  {
    if frames != [] {
      StreamLength(frames[..|frames| - 1]);
    }
  }

  /** The hardware is between frames exactly when what it read ends a frame. */
  lemma FetchBoundary(s: State)
    requires Inv(s) && s.log.fetched <= Flat(s.log.sent)
    ensures s.engine.busy <==> !Boundary(Flat(s.log.sent), |s.log.fetched|)
    ensures s.engine.busy ==> |s.log.fetched| < |Flat(s.log.sent)|
    ensures s.log.fetched == Flat(s.log.sent)[..|s.log.fetched|]
  {
    hide Spares, Lives, PcInBounds, Flat, Cleared;
    var log := s.log;
    var flat, p := Flat(log.sent), |log.fetched|;
    assert p == |log.retired| + log.cur;
    assert log.cur > 0 ==> flat[p - 1] == log.live[log.cur - 1];
    assert log.cur == 0 && p > 0 ==> flat[p - 1] == log.retired[p - 1];
  }

  lemma FirstLast(items: seq<Item>, o: nat) returns (e: nat)
    requires o < |items| && Boundary(items, |items|)
    ensures o <= e < |items| && items[e].last && forall k :: o <= k < e ==> !items[k].last
  {
    e := o;
    while !items[e].last
      invariant o <= e < |items| && forall k :: o <= k < e ==> !items[k].last
      decreases |items| - e
    {
      e := e + 1;
    }
  }

  lemma UnfetchedIsReady(s: State, o: nat)
    requires Inv(s) && s.log.cur <= o < |s.log.live|
    ensures var bd := s.ring.Bd(o);
      && bd.addr == s.ring.Slot(o) == Some(s.log.live[o].buf) && bd.len == s.log.live[o].len
      && !bd.used && bd.last == s.log.live[o].last
  {
    PcFacts(s.ring, s.pc);
    LiveAt(s.ring, s.pc, s.log, o);
    hide Account, PcInBounds, Writing, Written, Cleared, At, Spares, Lives;
  }

  /** A transmitter that finds its used bit clear has a whole frame before it: from
      its position to the first descriptor marked last, every descriptor has its
      buffer, the buffer's storage slot, and a clear used bit. */
  lemma FrameIsReady(s: State) returns (e: nat)
    requires Inv(s) && !s.ring.bds[s.engine.pos].used
    ensures s.log.cur <= e < |s.log.live|
    ensures forall o :: s.log.cur <= o <= e ==>
      var bd := s.ring.Bd(o);
      && bd.addr == s.ring.Slot(o) == Some(s.log.live[o].buf) && bd.len == s.log.live[o].len
      && !bd.used && bd.last == (o == e)
  {
    hide Account, PcInBounds, Cleared, At, Spares, Lives, Ring.Bd, Ring.Slot;
    if s.log.cur == |s.log.live| {
      HwIdles(s);
      assert false;
    }
    e := FirstLast(s.log.live, s.log.cur);
    forall o | s.log.cur <= o <= e
      ensures var bd := s.ring.Bd(o);
        && bd.addr == s.ring.Slot(o) == Some(s.log.live[o].buf) && bd.len == s.log.live[o].len
        && !bd.used && bd.last == (o == e)
    {
      UnfetchedIsReady(s, o);
    }
  }

  /** The same frame with its first used bit cleared too early. */
  function Hasty(s: State): State
    requires s.ring.Shape() && s.ring.hwCnt < s.ring.n
  {
    s.(ring := s.ring.WithBd(s.ring.hwCnt, s.ring.Bd(s.ring.hwCnt).(used := false)))
  }

  lemma HastyReads(s: State)
    requires Inv(s) && s.pc.ClearUsed? && s.pc.k == 1
    ensures s.ring.Shape() && s.ring.hwCnt + 1 < s.ring.n
    ensures var r, f := s.ring, s.pc.frame;
      && r.WrapOk() && !s.engine.fault
      && r.Bd(r.hwCnt).addr == Some(f[0].buf) && !r.Bd(r.hwCnt).last && r.Bd(r.hwCnt + 1).used
    ensures s.log.cur == |s.log.live| ==> !s.engine.busy && s.engine.pos == At(s.ring.tail, s.ring.hwCnt, s.ring.n)
  {
    SpareAt(s.ring, s.pc, |s.log.live|, s.ring.hwCnt);
    SpareAt(s.ring, s.pc, |s.log.live|, s.ring.hwCnt + 1);
    hide Account, Lives, At, Ring.Bd;
  }

  /** The order of the writes is needed: whenever the transmitter has caught up, a
      driver that cleared the used bits of a frame front to back would let it run
      into a used bit within the frame. */
  lemma FirstMustBeLast(s: State)
    requires Inv(s) && s.pc.ClearUsed? && s.pc.k == 1 && s.log.cur == |s.log.live|
    ensures s.ring.Shape() && s.ring.hwCnt < s.ring.n
    ensures !HwStep(s).engine.fault && HwStep(HwStep(Hasty(s))).engine.fault
  {
    hide Inv;
    HastyReads(s);
    HwIdles(s);
    var r := s.ring;
    WithBdReads(r, r.hwCnt, r.Bd(r.hwCnt).(used := false));
    var t := HwStep(Hasty(s));
    assert t.engine.busy && t.engine.pos == At(r.tail, r.hwCnt + 1, r.n);
    assert t.ring.bds[t.engine.pos].used;
  }

  function Offset(r: Ring, i: nat): (o: nat)
    requires r.Shape() && i < r.n
    ensures o < r.n && At(r.tail, o, r.n) == i
  {
    if i >= r.tail then i - r.tail else i - r.tail + r.n
  }

  /** Between calls a storage slot is occupied exactly when its descriptor is in
      the hardware segment, and then both hold the same buffer. */
  lemma SlotsMatchSegment(s: State, i: nat)
    requires Inv(s) && s.pc.Idle? && i < s.ring.n
    ensures s.ring.slots[i].Some? <==> Offset(s.ring, i) < s.ring.hwCnt
    ensures s.ring.slots[i].Some? ==> s.ring.bds[i].addr == s.ring.slots[i]
  {
    var r, o := s.ring, Offset(s.ring, i);
    if o < r.hwCnt {
      LiveAt(r, s.pc, s.log, o);
    } else {
      SpareAt(r, s.pc, |s.log.live|, o);
    }
  }

  /** A buffer whose slot process_sent_bds is about to empty belongs to a frame that
      the hardware has read to its end. */
  lemma ReleasesOnlyFinished(s: State)
    requires Inv(s) && s.pc.FreeSlot?
    ensures var o := Target(s.ring, s.pc);
      && s.ring.Slot(o) == Some(s.log.live[o].buf)
      && s.log.retired + s.log.live[..s.pc.count] <= s.log.fetched
      && Boundary(s.log.live, s.pc.count) && o < s.pc.count <= s.log.done
  {
    LiveAt(s.ring, s.pc, s.log, s.pc.k);
    assert s.log.live[..s.pc.count] <= s.log.live[..s.log.cur];
  }

  /** process_sent_bds, when it starts, takes back exactly what is finished. */
  lemma ReclaimsAllFinished(s: State)
    requires Inv(s) && s.pc.Idle?
    ensures DriverStep(s, Reclaim).pc == if s.log.done == 0 then Idle else ClearAddress(s.log.done, 0)
  {
    hide At, Spares, LiveOk, Account, Finished;
    ScanFindsDone(s.ring, s.log, 0);
  }

  // ----- Progress

  function HwSteps(s: State, k: nat): State
    decreases k
  {
    if k == 0 then s else HwSteps(HwStep(s), k - 1)
  }

  /** Left alone, the transmitter sends everything published in as many steps as there
      are descriptors left, and then stays where it is. */
  lemma {:induction false} EverythingGoesOut(s: State, k: nat)
    requires Inv(s) && k >= |s.log.live| - s.log.cur
    ensures var t := HwSteps(s, k);
      && Inv(t) && t.pc == s.pc && t.ring.hwCnt == s.ring.hwCnt
      && t.log.sent == s.log.sent && t.log.retired == s.log.retired && t.log.live == s.log.live
      && t.log.fetched == Flat(s.log.sent) && t.log.done == |s.log.live|
    decreases k
  {
    hide HwStep, Spares, Lives, Positions, PcInBounds, Flat;
    HwKeepsInv(s);
    if s.log.cur == |s.log.live| {
      HwIdles(s);
    } else {
      HwFetchForm(s);
      HwKeepsCount(s);
    }
    if k > 0 {
      EverythingGoesOut(HwStep(s), k - 1);
    }
  }

  lemma HwKeepsCount(s: State)
    ensures HwStep(s).ring.hwCnt == s.ring.hwCnt
  {
  }

  /** So a reclaim after that takes back every descriptor of the hardware segment: no
      buffer is held for ever. */
  lemma EverythingComesBack(s: State, k: nat)
    requires Inv(s) && s.pc.Idle? && k >= |s.log.live| - s.log.cur
    ensures Inv(HwSteps(s, k))
    ensures DriverStep(HwSteps(s, k), Reclaim).pc == if s.ring.hwCnt == 0 then Idle else ClearAddress(s.ring.hwCnt, 0)
  {
    hide HwSteps, DriverStep, Spares, Lives, Positions, Account;
    EverythingGoesOut(s, k);
    ReclaimsAllFinished(HwSteps(s, k));
  }
}
