/** The transmit half of xemacpsif_dma.c as it runs: loops over shared arrays, with
    the hardware taking any number of steps after every write, and a reference
    count taken for every storage slot. */
module TxDma {
  import opened CInt
  import opened TxHandoff
  import opened PbufHeap

  /** The storage slots that hold q. */
  ghost function SlotsHolding(slots: seq<Option<Buf>>, q: Buf): nat {
    multiset(slots)[Some(q)]
  }

  /** Every reference not held by a chain is held by the stack above or by a slot. */
  ghost predicate RefsOk(held: multiset<Buf>, ext: multiset<Buf>, slots: seq<Option<Buf>>) {
    forall q: Buf :: held[q] == ext[q] + SlotsHolding(slots, q)
  }

  lemma SlotTaken(held: multiset<Buf>, ext: multiset<Buf>, slots: seq<Option<Buf>>, i: nat, q: Buf)
    requires RefsOk(held, ext, slots) && i < |slots| && slots[i] == None
    ensures RefsOk(held + multiset{q}, ext, slots[i := Some(q)])
  {
  }

  lemma SlotEmptied(held: multiset<Buf>, ext: multiset<Buf>, slots: seq<Option<Buf>>, i: nat, q: Buf)
    requires RefsOk(held, ext, slots) && i < |slots| && slots[i] == Some(q)
    ensures q in held && RefsOk(held - multiset{q}, ext, slots[i := None])
  {
    assert multiset(slots)[Some(q)] > 0;
  }

  /** The hardware only reads what is published. */
  lemma HwKeepsHistory(s: State)
    requires s.log.done <= s.log.cur
    ensures var t := HwStep(s).log;
      t.sent == s.log.sent && t.live == s.log.live && t.retired == s.log.retired && t.done >= s.log.done
  {
  }

  lemma DoneIsRead(s: State)
    requires Inv(s)
    ensures s.log.done <= s.log.cur
  {
  }

  lemma NoSlots(slots: seq<Option<Buf>>)
    requires forall i :: 0 <= i < |slots| ==> slots[i] == None
    ensures forall q: Buf :: SlotsHolding(slots, q) == 0
  {
    forall q: Buf ensures SlotsHolding(slots, q) == 0 {
      assert Some(q) !in slots;
    }
  }

  lemma SendingSteps(frame: seq<Seg>, k: nat)
    ensures Sends(SetAddress(frame, k)) && Sends(SetLength(frame, k)) && Sends(SetSlot(frame, k))
    ensures Sends(ClearLast(frame, k)) && Sends(SetLast(frame)) && Sends(ClearUsed(frame, k))
  {
  }

  lemma SendFits(s: State)
    requires Inv(s) && s.pc.SetAddress?
    ensures 0 < |s.pc.frame| <= s.ring.n - s.ring.hwCnt && s.ring.Shape()
  {
    hide Counts, Positions, Account, Spares, Lives;
    Indexes(s);
  }

  /** XEmacPs_BdRingToHw only moves the library's count. */
  lemma Committed(s: State)
    requires Inv(s) && s.pc.Submit?
    ensures Inv(State(s.ring.(hwCnt := s.ring.hwCnt + |s.pc.frame|), Idle, s.engine, s.log))
  {
    hide Inv;
    SubmitKeepsInv(s, Reclaim);
  }

  lemma CountFits(s: State)
    requires Inv(s) && s.pc.ClearAddress?
    ensures s.ring.Shape() && 0 < s.pc.count <= s.ring.hwCnt == |s.log.live|
  {
    hide Spares, Lives, Account, Positions;
  }

  lemma SlotIsHeld(s: State)
    requires Inv(s) && s.pc.FreeSlot?
    ensures s.ring.Shape() && PcInBounds(s.ring, s.pc) && s.pc.k < |s.log.live|
    ensures s.ring.Slot(Target(s.ring, s.pc)) == Some(s.log.live[s.pc.k].buf)
  {
    ReleasesOnlyFinished(s);
  }

  /** The library's scan either finds nothing finished, or a reclaim starts. */
  lemma StartReclaim(s: State)
    requires Inv(s) && s.pc.Idle?
    ensures s.ring.Shape() && s.ring.Scan(0) == s.log.done
    ensures s.ring.Scan(0) > 0 ==> Inv(s.(pc := ClearAddress(s.ring.Scan(0), 0)))
    ensures s.ring.hwCnt == |s.log.live| && s.log.done <= s.ring.hwCnt
  {
    IdleKeepsInv(s, Reclaim);
    ReclaimsAllFinished(s);
    hide Spares, Lives, Account, Positions, PcInBounds;
  }

  /** XEmacPs_BdRingFree moves the head past what was taken back. */
  lemma TakenBack(s: State)
    requires Inv(s) && s.pc.Release?
    ensures s.ring.Shape() && s.pc.count <= s.ring.hwCnt && s.pc.count <= s.log.done <= s.log.cur <= |s.log.live|
    ensures Inv(State(Released(s.ring, s.pc.count), Idle, s.engine, Retired(s.log, s.pc.count)))
  {
    ReleaseForm(s, Reclaim);
    ReleaseKeepsInv(s, Reclaim);
    hide Spares, Lives, Account, Positions;
  }

  /** A write that another write to the same descriptor follows. */
  predicate StaysAt(pc: Pc) {
    pc.SetAddress? || pc.SetLength? || pc.SetSlot? || pc.ClearAddress? || pc.ResetStatus?
  }

  /** The ring with one array element replaced: what the statement leaves behind. */
  function Replaced(r: Ring, pc: Pc, i: nat): Ring
    requires r.Shape() && i < r.n
  {
    if pc.SetSlot? || pc.FreeSlot? then r.(slots := r.slots[i := SlotWrite(pc, r.slots[i])])
    else r.(bds := r.bds[i := BdWrite(pc, r.bds[i], i == r.n - 1)])
  }

  lemma WriteIsReplacement(r: Ring, pc: Pc, i: nat)
    requires r.Shape() && PcInBounds(r, pc) && Writes(pc) && i == At(r.tail, Target(r, pc), r.n) < r.n
    ensures Write(r, pc) == Replaced(r, pc, i)
  {
    hide BdWrite, SlotWrite, PcInBounds, Target;
  }

  lemma StaysPut(r: Ring, t: Ring, pc: Pc)
    requires r.Shape() && PcInBounds(r, pc) && StaysAt(pc) && t.Shape()
    requires t.n == r.n && t.hwCnt == r.hwCnt && t.tail == r.tail
    ensures PcInBounds(t, Following(pc)) && Writes(Following(pc)) && Target(t, Following(pc)) == Target(r, pc)
  {
  }

  lemma WriteStep(s: State, i: nat)
    requires Inv(s) && (Sends(s.pc) || TakesBack(s.pc)) && s.ring.Shape() && PcInBounds(s.ring, s.pc) && Writes(s.pc)
    requires i == At(s.ring.tail, Target(s.ring, s.pc), s.ring.n) < s.ring.n
    ensures var t := Replaced(s.ring, s.pc, i);
      && t.Shape() && Inv(State(t, Following(s.pc), s.engine, s.log))
      && (StaysAt(s.pc) ==> PcInBounds(t, Following(s.pc)) && Writes(Following(s.pc))
                            && Target(t, Following(s.pc)) == Target(s.ring, s.pc))
  {
    hide Inv, Write, At, PcInBounds, Target, BdWrite, SlotWrite, Following, Sends, TakesBack, DriverStep;
    WriteForm(s, Reclaim);
    WriteKeepsInv(s, Reclaim);
    WriteIsReplacement(s.ring, s.pc, i);
    if StaysAt(s.pc) {
      StaysPut(s.ring, Replaced(s.ring, s.pc, i), s.pc);
    }
  }

  /** A frame that fits starts being written. */
  lemma StartSend(s: State, frame: seq<Seg>)
    requires Inv(s) && s.pc.Idle? && 0 < |frame| <= s.ring.n - s.ring.hwCnt
    ensures Inv(s.(pc := SetAddress(frame, 0)))
    ensures s.ring.Shape() && s.ring.hwCnt + |frame| <= s.ring.n
  {
    hide Inv;
    Indexes(s);
    IdleKeepsInv(s, Send(frame));
  }

  lemma Indexes(s: State)
    requires Inv(s)
    ensures s.ring.Shape() && PcInBounds(s.ring, s.pc)
    ensures Writes(s.pc) ==> At(s.ring.tail, Target(s.ring, s.pc), s.ring.n) < s.ring.n
  {
  }

  class Transmitter {
    const n: nat
    /** The longest length a descriptor is given: the maximum frame less 18 bytes. */
    const maxLen: nat
    const bds: array<Bd>
    const slots: array<Option<Buf>>
    var tail: nat
    var hwCnt: nat
    /** The library's segment of descriptors allocated but not yet handed over. */
    var preHead: nat
    var preCnt: nat
    var engine: Engine
    const heap: Heap
    ghost var log: Log
    /** The references that the stack above the driver holds. */
    ghost var ext: multiset<Buf>

    function R(): Ring
      reads this`tail, this`hwCnt, bds, slots
    {
      Ring(n, bds[..], slots[..], tail, hwCnt)
    }

    ghost function S(pc: Pc): State
      reads this`tail, this`hwCnt, this`engine, this`log, bds, slots
    {
      State(R(), pc, engine, log)
    }

    ghost predicate Refs()
      reads this`ext, heap, slots
    {
      heap.Valid() && RefsOk(heap.held, ext, slots[..])
    }

    /** Nothing is allocated, and the next allocation starts behind the hardware's
        segment. */
    ghost predicate NothingAllocated()
      reads this
    {
      preCnt == 0 && preHead == At(tail, hwCnt, n)
    }

    ghost predicate Valid()
      reads this, bds, slots, heap
    {
      Inv(S(Idle)) && Refs() && NothingAllocated()
    }

    /** The transmit part of init_dma: a ring of used descriptors and empty slots. */
    constructor (n: nat, maxLen: nat, heap: Heap)
      requires n > 0 && heap.Valid()
      ensures Valid() && this.n == n && this.maxLen == maxLen && this.heap == heap
      ensures S(Idle) == Initial(n) && ext == heap.held
      ensures fresh(bds) && fresh(slots)
    {
      this.n, this.maxLen, this.heap := n, maxLen, heap;
      bds := new Bd[n](i => Bd(None, 0, true, false, i == n - 1));
      slots := new Option<Buf>[n](_ => None);
      tail, hwCnt, preHead, preCnt := 0, 0, 0, 0;
      engine := Engine(0, 0, false, false);
      log := Log([], [], [], 0, 0, []);
      ext := heap.held;
      new;
      InitialInv(n);
      assert R() == Initial(n).ring;
      NoSlots(slots[..]);
    }

    /** Any number of hardware steps. */
    method Hardware(ghost pc: Pc)
      requires Inv(S(pc))
      modifies bds, this`engine, this`log
      ensures Inv(S(pc))
      ensures forall i :: 0 <= i < bds.Length ==> bds[i] == old(bds[i]) || bds[i] == old(bds[i]).(used := true)
      ensures log.sent == old(log.sent) && log.live == old(log.live) && log.retired == old(log.retired)
      ensures log.done >= old(log.done)
    {
      hide Inv, HwStep;
      var steps: nat :| true;
      while steps > 0
        invariant Inv(S(pc))
        invariant forall i :: 0 <= i < bds.Length ==> bds[i] == old(bds[i]) || bds[i] == old(bds[i]).(used := true)
        invariant log.sent == old(log.sent) && log.live == old(log.live) && log.retired == old(log.retired)
        invariant log.done >= old(log.done)
      {
        ghost var before := S(pc);
        HwKeepsInv(before);
        DoneIsRead(before);
        HwKeepsHistory(before);
        HardwareStep(pc);
        assert S(pc) == HwStep(before);
        steps := steps - 1;
      }
    }

    method HardwareStep(ghost pc: Pc)
      modifies bds, this`engine, this`log
      ensures S(pc) == HwStep(old(S(pc)))
      ensures forall i :: 0 <= i < bds.Length ==> bds[i] == old(bds[i]) || bds[i] == old(bds[i]).(used := true)
    {
      var e := engine;
      if e.pos >= bds.Length {
        engine := e.(fault := true);
        return;
      }
      var bd := bds[e.pos];
      var first := if e.busy then e.first else e.pos;
      if bd.used {
        engine := e.(fault := e.fault || e.busy);
      } else if bd.addr.None? || first >= bds.Length {
        engine := e.(fault := true);
      } else {
        engine := Engine(if bd.wrap then 0 else e.pos + 1, first, !bd.last, e.fault);
        log := log.(cur := log.cur + 1, done := if bd.last then log.cur + 1 else log.done,
                    fetched := log.fetched + [Item(bd.addr.value, bd.len, bd.last)]);
        if bd.last {
          bds[first] := bds[first].(used := true);
        }
      }
    }

    /** Index i of the arrays is where the write at pc goes. */
    ghost predicate Placed(pc: Pc, i: nat)
      reads this, bds, slots
    {
      R().Shape() && PcInBounds(R(), pc) && Writes(pc) && i == At(tail, Target(R(), pc), n) < n
    }

    /** One write of a descriptor word, then whatever the hardware does. */
    method Store(i: nat, bd: Bd, ghost pc: Pc)
      requires Inv(S(pc)) && (Sends(pc) || TakesBack(pc)) && !pc.SetSlot? && !pc.FreeSlot?
      requires Placed(pc, i) && bd == BdWrite(pc, bds[i], i == n - 1)
      modifies bds, this`engine, this`log
      ensures Inv(S(Following(pc)))
      ensures StaysAt(pc) ==> Placed(Following(pc), i)
      ensures i < bds.Length && (bds[i] == bd || bds[i] == bd.(used := true))
      ensures log.sent == old(log.sent) && log.live == old(log.live) && log.retired == old(log.retired)
      ensures log.done >= old(log.done)
    {
      hide Inv, Write, At, PcInBounds, Target, BdWrite, SlotWrite, Following, Sends, TakesBack;
      ghost var before := R();
      WriteStep(S(pc), i);
      bds[i] := bd;
      Hardware(Following(pc));
      if StaysAt(pc) {
        StaysPut(before, R(), pc);
      }
    }

    /** One write of a storage slot. */
    method StoreSlot(i: nat, slot: Option<Buf>, ghost pc: Pc)
      requires Inv(S(pc)) && (pc.SetSlot? || pc.FreeSlot?)
      requires Placed(pc, i) && slot == SlotWrite(pc, slots[i])
      modifies bds, slots, this`engine, this`log
      ensures Inv(S(Following(pc)))
      ensures StaysAt(pc) ==> Placed(Following(pc), i)
      ensures slots[..] == old(slots[..])[i := slot]
      ensures i < bds.Length && (bds[i] == old(bds[i]) || bds[i] == old(bds[i]).(used := true))
      ensures log.sent == old(log.sent) && log.live == old(log.live) && log.retired == old(log.retired)
      ensures log.done >= old(log.done)
    {
      hide Inv, Write, At, PcInBounds, Target, BdWrite, SlotWrite, Following;
      ghost var before := R();
      WriteStep(S(pc), i);
      slots[i] := slot;
      Hardware(Following(pc));
      if StaysAt(pc) {
        StaysPut(before, R(), pc);
      }
    }

    /** Clearing the first descriptor's used bit hands the frame over. */
    method Publish(i: nat, ghost pc: Pc)
      requires Inv(S(pc)) && pc.ClearFirstUsed? && i == At(tail, hwCnt, n)
      modifies bds, this`engine, this`log
      ensures Inv(S(Following(pc)))
      ensures log.sent == old(log.sent) + [pc.frame] && log.live == old(log.live) + Items(pc.frame)
      ensures log.retired == old(log.retired)
    {
      ghost var before := S(pc);
      bds[i] := bds[i].(used := false);
      log := Published(log, pc.frame);
      PublishForm(before, Reclaim);
      PublishKeepsInv(before, Reclaim);
      assert R() == Write(before.ring, pc);
      Hardware(Following(pc));
    }

    // ----- emacps_sgsend

    /** The length a descriptor gets: clipped to the maximum, in 14 bits. */
    function Clip(len: nat): nat {
      (if len > maxLen then maxLen else len) % 0x4000
    }

    ghost function FrameOf(live: Store, chain: seq<Buf>): (f: seq<Seg>)
      ensures |f| == |chain|
    {
      seq(|chain|, k requires 0 <= k < |chain| =>
        Seg(chain[k], if chain[k] in live then Clip(live[chain[k]].len) else 0))
    }

    /** A frame has the chain's buffers in its order, each with its own length, or the
        longest that a descriptor is given, in 14 bits. */
    lemma FrameIs(live: Store, p: Buf, chain: seq<Buf>)
      requires IsChain(live, p, chain)
      ensures var frame := FrameOf(live, chain);
        && |frame| == |chain|
        && forall k :: 0 <= k < |chain| ==>
             && chain[k] in live && frame[k].buf == chain[k]
             && frame[k].len == (if live[chain[k]].len <= maxLen then live[chain[k]].len else maxLen) % 0x4000
             && (live[chain[k]].len <= maxLen < 0x4000 ==> frame[k].len == live[chain[k]].len)
    {
    }

    /** What following the next pointer from place k finds. */
    lemma ChainStep(live: Store, p: Buf, chain: seq<Buf>, k: nat)
      requires IsChain(live, p, chain) && k < |chain|
      ensures chain[k] in live && live[chain[k]].next == Link(chain, k + 1)
      ensures FrameOf(live, chain)[k] == Seg(chain[k], Clip(live[chain[k]].len))
    {
    }

    /** The buffer at place k of a chain, or none past its end. */
    ghost function Link(chain: seq<Buf>, k: nat): Option<Buf> {
      if k < |chain| then Some(chain[k]) else None
    }

    method CountChain(p: Buf, ghost chain: seq<Buf>) returns (count: nat)
      requires IsChain(heap.live, p, chain)
      ensures count == |chain|
    {
      count := 0;
      var q := Some(p);
      while q.Some?
        invariant count <= |chain| && q == Link(chain, count)
        decreases |chain| - count
      {
        q := heap.live[q.value].next;
        count := count + 1;
      }
    }

    /** The next descriptor of the ring. */
    function RingNext(i: nat): nat {
      if i + 1 == n then 0 else i + 1
    }

    /** The sizes that bound every index. */
    lemma Sizes(pc: Pc)
      requires Inv(S(pc))
      ensures R().Shape() && 0 < n == bds.Length == slots.Length && tail < n && hwCnt <= n
      ensures pc.SetAddress? ==> 0 < |pc.frame| <= n - hwCnt
      ensures pc.ClearAddress? ==> 0 < pc.count <= hwCnt == |log.live|
      ensures Writes(pc) ==> Placed(pc, At(tail, Target(R(), pc), n))
    {
      Indexes(S(pc));
      if pc.SetAddress? {
        SendFits(S(pc));
      }
      if pc.ClearAddress? {
        CountFits(S(pc));
      }
      hide Inv;
    }

    /** A frame that fits starts being written. */
    lemma Begin(frame: seq<Seg>)
      requires Inv(S(Idle)) && 0 < |frame| <= n - hwCnt
      ensures Inv(S(SetAddress(frame, 0)))
    {
      StartSend(S(Idle), frame);
      hide Inv;
    }

    /** XEmacPs_BdRingAlloc: as many descriptors as asked for, or none. */
    method Alloc(count: nat) returns (ok: bool, first: nat)
      requires Inv(S(Idle)) && NothingAllocated()
      modifies this`preCnt
      ensures ok <==> count <= n - hwCnt
      ensures ok ==> first == At(tail, hwCnt, n) && preCnt == count
      ensures !ok ==> preCnt == old(preCnt)
    {
      hide Inv;
      Sizes(Idle);
      first := At(preHead, preCnt, n);
      ok := count <= n - hwCnt - preCnt;
      if ok {
        preCnt := preCnt + count;
      }
    }

    /** XEmacPs_BdRingToHw: refused unless the set is the first allocated one. */
    method Commit(count: nat, first: nat, ghost frame: seq<Seg>) returns (ok: bool)
      requires Inv(S(Submit(frame))) && count == |frame|
      modifies this`hwCnt, this`preHead, this`preCnt
      ensures ok <==> old(count <= preCnt && first == preHead)
      ensures !ok ==> unchanged(this)
      ensures ok ==> Inv(S(Idle)) && hwCnt == old(hwCnt) + count && preCnt == old(preCnt) - count
                     && preHead == At(old(preHead), count, n)
    {
      hide Inv, At;
      if preCnt < count || preHead != first {
        return false;
      }
      Committed(S(Submit(frame)));
      hwCnt, preCnt := hwCnt + count, preCnt - count;
      preHead := At(preHead, count, n);
      return true;
    }

    lemma NextAllocation(before: nat, count: nat)
      requires tail < n && before + count <= n
      ensures At(At(tail, before, n), count, n) == At(tail, before + count, n)
    {
    }

    lemma AfterFree(count: nat)
      requires tail < n && count <= hwCnt <= n
      ensures At(At(tail, count, n), hwCnt - count, n) == At(tail, hwCnt, n)
    {
    }

    /** XEmacPs_BdRingFree. */
    method FreeBds(count: nat)
      requires Inv(S(Release(count))) && NothingAllocated()
      modifies this`tail, this`hwCnt, this`log
      ensures Inv(S(Idle)) && NothingAllocated() && hwCnt == old(hwCnt) - count
      ensures count <= old(log.done) && count <= old(log.cur) && count <= |old(log.live)|
      ensures log == Retired(old(log), count)
    {
      hide Inv, At;
      TakenBack(S(Release(count)));
      AfterFree(count);
      tail := At(tail, count, n);
      hwCnt := hwCnt - count;
      log := Retired(log, count);
    }

    /** XEmacPs_BdRingFromHwTx finds exactly what the hardware has finished. */
    method FromHw() returns (count: nat)
      requires Inv(S(Idle))
      ensures count == log.done && (count > 0 ==> Inv(S(ClearAddress(count, 0))))
    {
      hide Inv;
      StartReclaim(S(Idle));
      count := R().Scan(0);
    }

    /** The next descriptor is the next offset, around the ring's end. */
    lemma NextPlace(o: nat)
      requires tail < n && o < n
      ensures RingNext(At(tail, o, n)) == At(tail, o + 1, n)
    {
    }

    /** Place k of a frame being written, and its empty slot. */
    lemma FreePlace(frame: seq<Seg>, k: nat)
      requires Inv(S(SetAddress(frame, k)))
      ensures R().Shape() && n == bds.Length == slots.Length && At(tail, hwCnt + k, n) < n
      ensures slots[At(tail, hwCnt + k, n)] == None
      ensures Placed(SetAddress(frame, k), At(tail, hwCnt + k, n))
    {
      hide Inv, PcInBounds, At;
      SlotIsFree(S(SetAddress(frame, k)));
      Indexes(S(SetAddress(frame, k)));
    }

    /** Describe one buffer: address, length, slot, a reference, not last. */
    method Describe(q: Buf, i: nat, ghost frame: seq<Seg>, ghost k: nat)
      requires Inv(S(SetAddress(frame, k))) && Refs() && q in heap.live
      requires k < |frame| && frame[k] == Seg(q, Clip(heap.live[q].len))
      requires i == At(tail, hwCnt + k, n)
      modifies bds, slots, heap, this`engine, this`log
      ensures Inv(S(if k + 1 < |frame| then SetAddress(frame, k + 1) else SetLast(frame))) && Refs()
      ensures i < bds.Length == slots.Length && slots[i] == Some(q)
      ensures bds[i].addr == Some(q) && bds[i].len == frame[k].len && !bds[i].last
      ensures log.sent == old(log.sent) && log.live == old(log.live) && log.retired == old(log.retired)
      ensures log.done >= old(log.done)
      ensures heap.live == WithRef(old(heap.live), q, old(heap.live[q].ref) + 1)
      ensures heap.held == old(heap.held) + multiset{q}
    {
      hide Inv, Write, At, RefsOk, Balanced, WithRef, Before, PcInBounds, Sends, TakesBack, R, S, Target, Placed;
      FreePlace(frame, k);
      SendingSteps(frame, k);
      if slots[i].Some? {
        assert false;
      }
      Store(i, bds[i].(addr := Some(q)), SetAddress(frame, k));
      Store(i, bds[i].(len := Clip(heap.live[q].len)), SetLength(frame, k));
      ghost var held, before := heap.held, slots[..];
      StoreSlot(i, Some(q), SetSlot(frame, k));
      SlotTaken(held, ext, before, i, q);
      heap.Ref(q);
      Store(i, bds[i].(last := false), ClearLast(frame, k));
    }

    /** One reference to each of the first k buffers of a chain. */
    ghost function References(chain: seq<Buf>, k: nat): multiset<Buf>
      requires k <= |chain|
    {
      if k == 0 then multiset{} else References(chain, k - 1) + multiset{chain[k - 1]}
    }

    lemma {:induction false} ReferencesAre(chain: seq<Buf>, k: nat)
      requires k <= |chain|
      ensures References(chain, k) == multiset(chain[..k])
    {
      if k > 0 {
        ReferencesAre(chain, k - 1);
        assert chain[..k] == chain[..k - 1] + [chain[k - 1]];
      }
    }

    /** The first k buffers of the chain are described, with a reference to each on
        top of those held before. */
    ghost predicate Described(p: Buf, chain: seq<Buf>, frame: seq<Seg>, k: nat, before: multiset<Buf>)
      reads this, bds, slots, heap
    {
      && k <= |chain| && IsChain(heap.live, p, chain) && frame == FrameOf(heap.live, chain)
      && Inv(S(if k < |chain| then SetAddress(frame, k) else SetLast(frame))) && Refs()
      && heap.held == before + References(chain, k)
    }

    method DescribeNext(q: Buf, i: nat, ghost p: Buf, ghost chain: seq<Buf>, ghost frame: seq<Seg>, ghost k: nat,
                        ghost before: multiset<Buf>)
      returns (next: Option<Buf>)
      requires Described(p, chain, frame, k, before) && k < |chain| && q == chain[k] && i == At(tail, hwCnt + k, n)
      modifies bds, slots, heap, this`engine, this`log
      ensures Described(p, chain, frame, k + 1, before) && next == Link(chain, k + 1)
      ensures log.sent == old(log.sent) && log.live == old(log.live) && log.retired == old(log.retired)
      ensures log.done >= old(log.done)
    {
      hide Inv, RefsOk, Balanced, PcInBounds, S, R, At, IsChain, FrameOf, WithRef;
      ChainStep(heap.live, p, chain, k);
      CountedChain(heap.live, p, chain, q, heap.live[q].ref + 1);
      next := heap.live[q].next;
      Describe(q, i, frame, k);
    }

    lemma DescribedStarts(p: Buf, chain: seq<Buf>, frame: seq<Seg>)
      requires IsChain(heap.live, p, chain) && frame == FrameOf(heap.live, chain)
      requires Inv(S(SetAddress(frame, 0))) && Refs()
      ensures chain != [] && chain[0] == p && |frame| == |chain|
      ensures Described(p, chain, frame, 0, heap.held)
    {
      hide Inv, RefsOk, Balanced, S, R, FrameOf;
    }

    lemma DescribedEnds(p: Buf, chain: seq<Buf>, frame: seq<Seg>, before: multiset<Buf>)
      requires Described(p, chain, frame, |chain|, before)
      ensures Inv(S(SetLast(frame))) && Refs() && heap.held == before + multiset(chain)
    {
      hide Inv, RefsOk, Balanced, S, R, FrameOf, IsChain, References;
      ReferencesAre(chain, |chain|);
      assert chain[..|chain|] == chain;
    }

    /** The loop over the chain; `last` is the descriptor of its last buffer. */
    method DescribeAll(p: Buf, first: nat, ghost chain: seq<Buf>, ghost frame: seq<Seg>) returns (last: nat)
      requires IsChain(heap.live, p, chain) && frame == FrameOf(heap.live, chain)
      requires Inv(S(SetAddress(frame, 0))) && Refs() && first == At(tail, hwCnt, n)
      modifies bds, slots, heap, this`engine, this`log
      ensures Inv(S(SetLast(frame))) && Refs()
      ensures last == At(tail, hwCnt + |chain| - 1, n)
      ensures heap.held == old(heap.held) + multiset(chain)
      ensures log.sent == old(log.sent) && log.live == old(log.live) && log.retired == old(log.retired)
      ensures log.done >= old(log.done)
    {
      hide Inv, RefsOk, Balanced, PcInBounds, S, R, At, RingNext, IsChain, FrameOf, Described, References;
      Sizes(SetAddress(frame, 0));
      DescribedStarts(p, chain, frame);
      var txbd, q := first, Some(p);
      last := first;
      ghost var k: nat := 0;
      NextPlace(hwCnt);
      assert At(tail, hwCnt + 0, n) == first;
      while q.Some?
        invariant k <= |chain| && q == Link(chain, k)
        invariant Described(p, chain, frame, k, old(heap.held))
        invariant txbd == At(tail, hwCnt + k, n) && (k > 0 ==> last == At(tail, hwCnt + k - 1, n))
        invariant log.sent == old(log.sent) && log.live == old(log.live) && log.retired == old(log.retired)
        invariant log.done >= old(log.done)
        decreases |chain| - k
      {
        NextPlace(hwCnt + k);
        q := DescribeNext(q.value, txbd, p, chain, frame, k, old(heap.held));
        last := txbd;
        txbd := RingNext(txbd);
        k := k + 1;
      }
      DescribedEnds(p, chain, frame, old(heap.held));
    }

    /** Counting a reference leaves chain and frame as they are. */
    lemma CountedChain(live: Store, p: Buf, chain: seq<Buf>, q: Buf, ref: nat)
      requires IsChain(live, p, chain) && q in live
      ensures IsChain(WithRef(live, q, ref), p, chain)
      ensures FrameOf(WithRef(live, q, ref), chain) == FrameOf(live, chain)
    {
    }

    lemma LastPlace(frame: seq<Seg>)
      requires R().Shape() && PcInBounds(R(), SetLast(frame))
      ensures Target(R(), SetLast(frame)) == hwCnt + |frame| - 1
    {
    }

    /** A chain that does not fit is refused and nothing changes. Otherwise each of
        its buffers gets a descriptor, a slot and a reference, and the frame is
        handed to the hardware. */
    method SgSend(p: Buf, ghost chain: seq<Buf>) returns (ok: bool)
      requires Valid() && IsChain(heap.live, p, chain)
      modifies bds, slots, heap, this`hwCnt, this`preHead, this`preCnt, this`engine, this`log
      ensures Valid()
      ensures ok <==> |chain| <= n - old(hwCnt)
      ensures !ok ==> slots[..] == old(slots[..]) && bds[..] == old(bds[..]) && hwCnt == old(hwCnt) && log == old(log)
                      && heap.live == old(heap.live) && heap.held == old(heap.held)
      ensures ok ==> log.sent == old(log.sent) + [FrameOf(old(heap.live), chain)] && hwCnt == old(hwCnt) + |chain|
                     && heap.held == old(heap.held) + multiset(chain)
      ensures log.retired == old(log.retired)
    {
      hide Inv, Write, RefsOk, Balanced, DriverStep, PcInBounds, S, R, Placed;
      Sizes(Idle);
      var count := CountChain(p, chain);
      var available, first := Alloc(count);
      if !available {
        return false;
      }
      ghost var frame := FrameOf(heap.live, chain);
      Begin(frame);
      var last := DescribeAll(p, first, chain, frame);
      HandOver(first, last, count, frame);
      return true;
    }

    /** Mark the last descriptor, clear the used bits, the first one's last, and commit
        the set: the library finds it to be the one allocated. */
    method HandOver(first: nat, last: nat, count: nat, ghost frame: seq<Seg>)
      requires Inv(S(SetLast(frame))) && count == |frame| > 0 && preCnt == count
      requires first == preHead == At(tail, hwCnt, n) && last == At(tail, hwCnt + count - 1, n)
      modifies bds, this`hwCnt, this`preHead, this`preCnt, this`engine, this`log
      ensures Inv(S(Idle)) && NothingAllocated() && hwCnt == old(hwCnt) + count
      ensures log.sent == old(log.sent) + [frame] && log.retired == old(log.retired)
    {
      hide Inv, Write, DriverStep, PcInBounds, S, At;
      Sizes(SetLast(frame));
      LastPlace(frame);
      Room(frame);
      NextAllocation(hwCnt, count);
      Store(last, bds[last].(last := true), SetLast(frame));
      ClearOthers(first, count, frame);
      Publish(first, ClearFirstUsed(frame));
      var committed := Commit(count, first, frame);
      if !committed {
        assert false;
      }
    }

    lemma Room(frame: seq<Seg>)
      requires Inv(S(SetLast(frame)))
      ensures |frame| <= n - hwCnt
    {
      Indexes(S(SetLast(frame)));
      hide Inv;
    }

    /** Clear the used bits of all descriptors of the frame but the first. */
    method ClearOthers(first: nat, count: nat, ghost frame: seq<Seg>)
      requires Inv(S(if |frame| > 1 then ClearUsed(frame, 1) else ClearFirstUsed(frame)))
      requires count == |frame| > 0 && first == At(tail, hwCnt, n)
      modifies bds, this`engine, this`log
      ensures Inv(S(ClearFirstUsed(frame)))
      ensures log.sent == old(log.sent) && log.live == old(log.live) && log.retired == old(log.retired)
      ensures log.done >= old(log.done)
    {
      hide Inv, Write, PcInBounds, Sends, TakesBack;
      Indexes(S(if |frame| > 1 then ClearUsed(frame, 1) else ClearFirstUsed(frame)));
      var txbd, k := RingNext(first), 1;
      while k < count
        invariant 1 <= k <= count && txbd == At(tail, hwCnt + k, n)
        invariant Inv(S(if k < |frame| then ClearUsed(frame, k) else ClearFirstUsed(frame)))
        invariant log.sent == old(log.sent) && log.live == old(log.live) && log.retired == old(log.retired)
        invariant log.done >= old(log.done)
      {
        Indexes(S(ClearUsed(frame, k)));
        SendingSteps(frame, k);
        Store(txbd, bds[txbd].(used := false), ClearUsed(frame, k));
        txbd := RingNext(txbd);
        k := k + 1;
      }
    }

    // ----- process_sent_bds

    /** Both words of a descriptor: no address, then used, with the wrap bit on the
        ring's last descriptor. */
    method ResetBd(i: nat, ghost count: nat, ghost k: nat)
      requires Inv(S(ClearAddress(count, k))) && k < count && i == At(tail, k, n)
      modifies bds, this`engine, this`log
      ensures Inv(S(FreeSlot(count, k)))
      ensures i < bds.Length && bds[i] == Bd(None, 0, true, false, i == n - 1)
      ensures log.sent == old(log.sent) && log.live == old(log.live) && log.retired == old(log.retired)
      ensures log.done >= old(log.done)
    {
      hide Inv, Write, At, PcInBounds;
      Indexes(S(ClearAddress(count, k)));
      Store(i, bds[i].(addr := None), ClearAddress(count, k));
      Indexes(S(ResetStatus(count, k)));
      Store(i, Bd(bds[i].addr, 0, true, false, i == n - 1), ResetStatus(count, k));
    }

    /** Drop the reference that the slot holds, and empty the slot. */
    method DropSlot(i: nat, ghost count: nat, ghost k: nat)
      requires Inv(S(FreeSlot(count, k))) && Refs() && k < count && i == At(tail, k, n)
      modifies bds, slots, heap, this`engine, this`log
      ensures Inv(S(if k + 1 < count then ClearAddress(count, k + 1) else Release(count))) && Refs()
      ensures log.sent == old(log.sent) && log.live == old(log.live) && log.retired == old(log.retired)
      ensures log.done >= old(log.done)
      ensures k < |log.live| && heap.held + multiset{log.live[k].buf} == old(heap.held)
      ensures Within(heap.live, old(heap.live))
    {
      hide Inv, Write, At, RefsOk, Balanced, PcInBounds, Within;
      Indexes(S(FreeSlot(count, k)));
      SlotIsHeld(S(FreeSlot(count, k)));
      var p := slots[i];
      SlotEmptied(heap.held, ext, slots[..], i, log.live[k].buf);
      if p.Some? {
        heap.Free(p.value);
      }
      StoreSlot(i, None, FreeSlot(count, k));
    }

    ghost function Buffers(items: seq<Item>): multiset<Buf> {
      if items == [] then multiset{} else Buffers(items[..|items| - 1]) + multiset{items[|items| - 1].buf}
    }

    /** One set of finished descriptors, taken back front to back. */
    method TakeBackAll(count: nat)
      requires Inv(S(ClearAddress(count, 0))) && Refs() && count > 0
      modifies bds, slots, heap, this`engine, this`log
      ensures Inv(S(Release(count))) && Refs()
      ensures log.sent == old(log.sent) && log.live == old(log.live) && log.retired == old(log.retired)
      ensures log.done >= old(log.done)
      ensures count <= |log.live| && heap.held + Buffers(log.live[..count]) == old(heap.held)
      ensures Within(heap.live, old(heap.live))
    {
      hide Inv, Write, RefsOk, Balanced, PcInBounds, Within, Buffers;
      WithinItself(heap.live);
      NoBuffers();
      Indexes(S(ClearAddress(count, 0)));
      CountFits(S(ClearAddress(count, 0)));
      var cur, k := tail, 0;
      while k < count
        invariant 0 <= k <= count <= |log.live| && cur == At(tail, k, n)
        invariant Inv(S(if k < count then ClearAddress(count, k) else Release(count))) && Refs()
        invariant log.sent == old(log.sent) && log.live == old(log.live) && log.retired == old(log.retired)
        invariant log.done >= old(log.done)
        invariant heap.held + Buffers(log.live[..k]) == old(heap.held)
        invariant Within(heap.live, old(heap.live))
      {
        ghost var stored := heap.live;
        ResetBd(cur, count, k);
        DropSlot(cur, count, k);
        WithinChains(heap.live, stored, old(heap.live));
        BuffersStep(log.live, k);
        cur := RingNext(cur);
        k := k + 1;
      }
    }

    /** Take back whatever the hardware has finished until there is nothing left.
        Each pass shortens the hardware segment; each buffer taken back loses the
        one reference that its slot held, and nothing else changes. */
    method ProcessSentBds()
      requires Valid()
      modifies bds, slots, heap, this`tail, this`hwCnt, this`engine, this`log
      ensures Valid()
      ensures log.done == 0 && hwCnt <= old(hwCnt) && log.sent == old(log.sent)
      ensures log.retired + log.live == old(log.retired + log.live)
      ensures hwCnt == old(hwCnt) - (|log.retired| - |old(log.retired)|)
      ensures old(log.retired) <= log.retired
              && heap.held + Buffers(log.retired[|old(log.retired)|..]) == old(heap.held)
      ensures |log.retired| >= |old(log.retired)| + old(log.done)
      ensures Within(heap.live, old(heap.live))
    {
      hide Inv, Write, RefsOk, Balanced, DriverStep, PcInBounds, Ring.Scan, Buffers, Within, At, S, R;
      NoBuffers();
      ghost var was := |log.retired|;
      WithinItself(heap.live);
      while true
        invariant Valid()
        invariant was <= |log.retired| && log.sent == old(log.sent)
        invariant log.retired + log.live == old(log.retired + log.live)
        invariant log.retired[..was] == old(log.retired)
        invariant hwCnt == old(hwCnt) - (|log.retired| - was) >= 0
        invariant heap.held + Buffers(log.retired[was..]) == old(heap.held)
        invariant |log.retired| + log.done >= was + old(log.done)
        invariant Within(heap.live, old(heap.live))
        decreases hwCnt
      {
        Hardware(Idle);
        var count := FromHw();
        if count == 0 {
          return;
        }
        ghost var live, stored := log.live, heap.live;
        TakeBackAll(count);
        WithinChains(heap.live, stored, old(heap.live));
        BuffersAppend(log.retired[was..], live[..count]);
        ghost var before := log;
        FreeBds(count);
        RetiredGrows(before, was, count);
      }
    }

    /** Taking back moves descriptors from the published to the retired ones. */
    lemma RetiredGrows(log: Log, was: nat, c: nat)
      requires was <= |log.retired| && c <= log.done && c <= log.cur && c <= |log.live|
      ensures var q := Retired(log, c);
        && q.retired[was..] == log.retired[was..] + log.live[..c] && q.retired[..was] == log.retired[..was]
        && q.retired + q.live == log.retired + log.live && |q.retired| == |log.retired| + c
    {
      assert log.live[..c] + log.live[c..] == log.live;
    }

    lemma NoBuffers()
      ensures forall items: seq<Item> :: items == [] ==> Buffers(items) == multiset{}
    {
    }

    lemma BuffersStep(items: seq<Item>, k: nat)
      requires k < |items|
      ensures Buffers(items[..k + 1]) == Buffers(items[..k]) + multiset{items[k].buf}
    {
      assert items[..k + 1][..k] == items[..k];
    }

    lemma {:induction false} BuffersAppend(a: seq<Item>, b: seq<Item>)
      ensures Buffers(a + b) == Buffers(a) + Buffers(b)
      decreases |b|
    {
      hide Buffers;
      if b == [] {
        NoBuffers();
        assert a + b == a;
      } else {
        var m := |b| - 1;
        BuffersAppend(a, b[..m]);
        BuffersStep(b, m);
        BuffersStep(a + b, |a| + m);
        assert (a + b)[..|a| + m] == a + b[..m] && (a + b)[..|a| + m + 1] == a + b && b[..m + 1] == b;
      }
    }

    // ----- Error recovery

    /** free_onlytx_pbufs, with the transmitter disabled. */
    method FreeOnlyTxPbufs()
      requires Refs() && slots.Length == n
      modifies slots, heap
      ensures Refs() && forall i :: 0 <= i < n ==> slots[i] == None
      ensures Within(heap.live, old(heap.live))
    {
      hide RefsOk, Balanced, Within;
      WithinItself(heap.live);
      var index := 0;
      while index < n
        invariant 0 <= index <= n && Refs()
        invariant forall i :: 0 <= i < index ==> slots[i] == None
        invariant Within(heap.live, old(heap.live))
      {
        if slots[index] != None {
          var p := slots[index].value;
          ghost var stored, before := heap.live, slots[..];
          SlotEmptied(heap.held, ext, before, index, p);
          heap.Free(p);
          WithinChains(heap.live, stored, old(heap.live));
          slots[index] := None;
          assert slots[..] == before[index := None];
        }
        index := index + 1;
      }
    }

    /** clean_dma_txdescs: the library creates the ring anew and copies a template
        with the used bit set into every descriptor. */
    method CleanDmaTxDescs()
      requires n > 0 && bds.Length == slots.Length == n && Refs()
      requires forall i :: 0 <= i < n ==> slots[i] == None
      modifies bds, this`tail, this`hwCnt, this`preHead, this`preCnt, this`engine, this`log
      ensures Valid() && S(Idle) == Initial(n)
    {
      hide Inv, RefsOk, Balanced;
      tail, hwCnt, preHead, preCnt := 0, 0, 0, 0;
      var i := 0;
      while i < n
        modifies bds
        invariant 0 <= i <= n
        invariant forall k :: 0 <= k < i ==> bds[k] == Bd(None, 0, true, false, k == n - 1)
      {
        bds[i] := Bd(None, 0, true, false, i == n - 1);
        i := i + 1;
      }
      engine := Engine(0, 0, false, false);
      log := Log([], [], [], 0, 0, []);
      assert bds[..] == Initial(n).ring.bds && slots[..] == Initial(n).ring.slots;
      InitialInv(n);
      assert S(Idle) == Initial(n);
    }

    /** After a transmit error every reference that a slot held is dropped, once, and
        the ring is as after initialisation. */
    method HandleTxErrors()
      requires Valid()
      modifies bds, slots, heap, this`tail, this`hwCnt, this`preHead, this`preCnt, this`engine, this`log
      ensures Valid() && S(Idle) == Initial(n)
      ensures heap.held == ext
      ensures Within(heap.live, old(heap.live))
    {
      hide Inv, RefsOk, Balanced, Within, S, R;
      Sizes(Idle);
      FreeOnlyTxPbufs();
      CleanDmaTxDescs();
      OnlyStackHolds(heap.held, ext, slots[..]);
    }

    lemma OnlyStackHolds(held: multiset<Buf>, ext: multiset<Buf>, slots: seq<Option<Buf>>)
      requires RefsOk(held, ext, slots) && forall i :: 0 <= i < |slots| ==> slots[i] == None
      ensures held == ext
    {
      NoSlots(slots);
    }

    // ----- low_level_output

    /** A chain that the stack holds outlives any reclaim. */
    lemma {:induction false} ChainSurvives(after: Store, before: Store, held: multiset<Buf>, p: Buf, chain: seq<Buf>)
      requires IsChain(before, p, chain) && Within(after, before) && Closed(after) && p in after
      ensures IsChain(after, p, chain) && FrameOf(after, chain) == FrameOf(before, chain)
    {
      var k := 1;
      while k < |chain|
        invariant 1 <= k <= |chain| && forall j :: 0 <= j < k ==> chain[j] in after
      {
        assert after[chain[k - 1]].next == Some(chain[k]);
        k := k + 1;
      }
    }

    /** With five descriptors or fewer free, first take back what is finished; then
        send, or drop the frame if no descriptor is free or the chain does not fit.
        Either way the stack's own references are untouched. */
    method LowLevelOutput(p: Buf, ghost chain: seq<Buf>) returns (ok: bool)
      requires Valid() && IsChain(heap.live, p, chain) && p in ext
      modifies bds, slots, heap, this`tail, this`hwCnt, this`preHead, this`preCnt, this`engine, this`log
      ensures Valid()
      ensures ok ==> log.sent == old(log.sent) + [FrameOf(old(heap.live), chain)]
      ensures !ok ==> log.sent == old(log.sent)
      ensures old(log.retired) <= log.retired
      ensures ok <==> |chain| <= n - (old(hwCnt) - (|log.retired| - |old(log.retired)|))
      ensures old(n - hwCnt) > 5 ==> log.retired == old(log.retired)
      ensures old(n - hwCnt) <= 5 ==> |log.retired| >= |old(log.retired)| + old(log.done)
      ensures old(n - hwCnt) <= 5 && |chain| <= n - (old(hwCnt) - old(log.done)) ==> ok
      ensures !ok && old(n - hwCnt) > 5 ==> heap.held == old(heap.held) && slots[..] == old(slots[..])
      ensures heap.held + Buffers(log.retired[|old(log.retired)|..])
           == old(heap.held) + if ok then multiset(chain) else multiset{}
    {
      hide Inv, RefsOk, Balanced, Within, FrameOf, S, R, Buffers, At;
      WithinItself(heap.live);
      NoBuffers();
      if n - hwCnt <= 5 {
        ProcessSentBds();
      }
      StackHolds(heap.live, heap.held, ext, slots[..], p);
      ChainSurvives(heap.live, old(heap.live), heap.held, p, chain);
      Sizes(Idle);
      if n - hwCnt > 0 {
        ok := SgSend(p, chain);
      } else {
        ok := false;
        assert chain != [];
      }
    }

    lemma StackHolds(live: Store, held: multiset<Buf>, ext: multiset<Buf>, slots: seq<Option<Buf>>, p: Buf)
      requires Balanced(live, held, None) && RefsOk(held, ext, slots) && p in ext
      ensures p in live && Closed(live)
    {
      assert held[p] > 0;
    }
  }
}
