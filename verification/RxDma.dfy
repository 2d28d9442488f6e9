/** The receive half of xemacpsif_dma.c as it runs: every buffer of the pool has one
    owner at every moment, and what the stack is handed is what arrived, in order. */
module RxDma {
  import opened CInt
  import opened TxHandoff
  import opened RxRing

  /** Who owns which buffer, what the buffers hold, and what has passed through. Of
      the frames `accepted` by the hardware, the receive handler has given a verdict
      (queued or dropped) on the first |verdicts|; `delivered` went to the stack. */
  datatype Ledger = Ledger(all: set<Buf>, mem: map<Buf, Frame>, ring: seq<Buf>, got: nat, queue: seq<Buf>,
                           pool: seq<Buf>, stack: multiset<Buf>, hand: multiset<Buf>,
                           accepted: seq<Frame>, verdicts: seq<bool>, delivered: seq<Frame>)

  /** Every buffer has exactly one owner: a descriptor of the hardware segment, the
      receive queue, the pool, the stack above, or the driver's hand. */
  predicate Owned(l: Ledger) {
    multiset(l.ring) + multiset(l.queue) + multiset(l.pool) + l.stack + l.hand == multiset(l.all)
  }

  /** The frames that were not dropped, in order. */
  function Kept(frames: seq<Frame>, verdicts: seq<bool>): seq<Frame>
    requires |frames| == |verdicts|
  {
    if frames == [] then []
    else
      var n := |frames| - 1;
      Kept(frames[..n], verdicts[..n]) + if verdicts[n] then [frames[n]] else []
  }

  function Texts(mem: map<Buf, Frame>, queue: seq<Buf>): (t: seq<Frame>)
    requires forall p :: p in queue ==> p in mem
    ensures |t| == |queue|
  {
    seq(|queue|, i requires 0 <= i < |queue| => mem[queue[i]])
  }

  /** The filled buffers hold the frames still to be handled; the queue holds, after
      what was delivered, exactly the frames kept so far. */
  predicate Faithful(l: Ledger) {
    && (forall p :: p in l.all ==> p in l.mem)
    && (forall p :: p in l.queue ==> p in l.all) && (forall p :: p in l.ring ==> p in l.all)
    && l.got <= |l.ring| && |l.accepted| == |l.verdicts| + l.got
    && (forall j :: 0 <= j < l.got ==> l.mem[l.ring[j]] == l.accepted[|l.verdicts| + j])
    && l.delivered + Texts(l.mem, l.queue) == Kept(l.accepted[..|l.verdicts|], l.verdicts)
  }

  predicate Good(l: Ledger) {
    Owned(l) && Faithful(l)
  }

  // ----- Distinct owners

  lemma CountedOnce(l: Ledger, p: Buf)
    requires Owned(l)
    ensures multiset(l.ring)[p] + multiset(l.queue)[p] + multiset(l.pool)[p] + l.stack[p] + l.hand[p] <= 1
  {
    assert (multiset(l.ring) + multiset(l.queue) + multiset(l.pool) + l.stack + l.hand)[p] == multiset(l.all)[p];
  }

  lemma SplitCount(ring: seq<Buf>, i: nat, j: nat)
    requires i < j < |ring| && ring[i] == ring[j]
    ensures multiset(ring)[ring[i]] >= 2
  {
    assert ring == ring[..j] + [ring[j]] + ring[j + 1..];
    assert ring[i] in ring[..j];
  }

  lemma InCount(s: seq<Buf>, p: Buf)
    ensures p in s <==> multiset(s)[p] > 0
  {
  }

  /** The buffer being filled is nobody else's. */
  lemma RingIsAlone(l: Ledger, j: nat)
    requires Owned(l) && j < |l.ring|
    ensures l.ring[j] !in l.queue && l.ring[j] !in l.stack
    ensures forall i :: 0 <= i < |l.ring| && i != j ==> l.ring[i] != l.ring[j]
  {
    var p := l.ring[j];
    CountedOnce(l, p);
    InCount(l.ring, p);
    InCount(l.queue, p);
    forall i | 0 <= i < |l.ring| && i != j ensures l.ring[i] != p {
      if l.ring[i] == p {
        SplitCount(l.ring, if i < j then i else j, if i < j then j else i);
      }
    }
  }

  // ----- The moves

  /** The hardware fills the next buffer. */
  function Filling(l: Ledger, frame: Frame): Ledger
    requires l.got < |l.ring|
  {
    l.(mem := l.mem[l.ring[l.got] := frame], got := l.got + 1, accepted := l.accepted + [frame])
  }

  lemma FillingIsGood(l: Ledger, frame: Frame)
    requires Good(l) && l.got < |l.ring|
    ensures Good(Filling(l, frame))
  {
    RingIsAlone(l, l.got);
    var t := Filling(l, frame);
    assert Texts(t.mem, t.queue) == Texts(l.mem, l.queue);
    assert t.accepted[..|l.verdicts|] == l.accepted[..|l.verdicts|];
    hide Kept, Owned;
  }

  /** The handler's verdict on the first filled buffer. */
  function Judged(l: Ledger, kept: bool): Ledger
    requires l.got > 0 && l.ring != []
  {
    l.(ring := l.ring[1..], got := l.got - 1, verdicts := l.verdicts + [kept],
       queue := if kept then l.queue + [l.ring[0]] else l.queue,
       pool := if kept then l.pool else l.pool + [l.ring[0]])
  }

  lemma JudgedIsOwned(l: Ledger, kept: bool)
    requires Owned(l) && l.got > 0 && l.ring != []
    ensures Owned(Judged(l, kept))
  {
    assert l.ring == [l.ring[0]] + l.ring[1..];
  }

  lemma JudgedIsFaithful(l: Ledger, kept: bool)
    requires Faithful(l) && l.got > 0
    ensures Faithful(Judged(l, kept))
  {
    var t, v := Judged(l, kept), |l.verdicts|;
    assert l.accepted[..v + 1][..v] == l.accepted[..v] && t.verdicts[..v] == l.verdicts;
    assert l.mem[l.ring[0]] == l.accepted[v + 0];
    assert kept ==> Texts(t.mem, t.queue) == Texts(l.mem, l.queue) + [l.mem[l.ring[0]]];
  }

  lemma JudgedIsGood(l: Ledger, kept: bool)
    requires Good(l) && l.got > 0
    ensures Good(Judged(l, kept))
  {
    JudgedIsOwned(l, kept);
    JudgedIsFaithful(l, kept);
  }

  /** low_level_input hands the oldest queued buffer to the stack. */
  function Handed(l: Ledger): Ledger
    requires l.queue != [] && l.queue[0] in l.mem
  {
    l.(queue := l.queue[1..], stack := l.stack + multiset{l.queue[0]}, delivered := l.delivered + [l.mem[l.queue[0]]])
  }

  lemma HandedIsGood(l: Ledger)
    requires Good(l) && l.queue != []
    ensures l.queue[0] in l.mem && Good(Handed(l))
  {
    assert l.queue == [l.queue[0]] + l.queue[1..];
    assert Texts(l.mem, l.queue) == [l.mem[l.queue[0]]] + Texts(l.mem, l.queue[1..]);
  }

  /** The stack frees a buffer. */
  function Returned(l: Ledger, p: Buf): Ledger {
    l.(stack := l.stack - multiset{p}, pool := l.pool + [p])
  }

  lemma ReturnedIsGood(l: Ledger, p: Buf)
    requires Good(l) && p in l.stack
    ensures Good(Returned(l, p))
  {
  }

  /** pbuf_alloc takes a buffer from the pool. */
  function Allocated(l: Ledger): Ledger
    requires l.pool != []
  {
    l.(pool := l.pool[1..], hand := l.hand + multiset{l.pool[0]})
  }

  lemma AllocatedIsGood(l: Ledger)
    requires Good(l) && l.pool != []
    ensures Good(Allocated(l))
  {
    assert l.pool == [l.pool[0]] + l.pool[1..];
  }

  /** Arming a descriptor gives the buffer to the hardware. */
  function Given(l: Ledger, p: Buf): Ledger {
    l.(hand := l.hand - multiset{p}, ring := l.ring + [p])
  }

  lemma GivenIsGood(l: Ledger, p: Buf)
    requires Good(l) && p in l.hand
    ensures Good(Given(l, p))
  {
    assert p in l.all by {
      assert (multiset(l.ring) + multiset(l.queue) + multiset(l.pool) + l.stack + l.hand)[p] > 0;
      assert p in multiset(l.all);
    }
  }

  /** From the pool to the hardware in one go. */
  lemma ArmedIsGood(l: Ledger)
    requires Good(l) && l.pool != [] && l.hand == multiset{}
    ensures Good(l.(pool := l.pool[1..], ring := l.ring + [l.pool[0]]))
  {
    hide Good;
    var p := l.pool[0];
    AllocatedIsGood(l);
    GivenIsGood(Allocated(l), p);
    assert multiset{} + multiset{p} - multiset{p} == multiset{};
  }

  lemma {:induction false} DistinctBuffers(s: seq<Buf>)
    requires forall i, j :: 0 <= i < j < |s| ==> s[i] != s[j]
    ensures multiset(s) == multiset(set p | p in s)
  {
    if s != [] {
      var m := |s| - 1;
      DistinctBuffers(s[..m]);
      assert s == s[..m] + [s[m]];
      assert (set p | p in s) == (set p | p in s[..m]) + {s[m]};
    }
  }

  /** A ring filled from its first descriptor on, with nothing received yet. */
  lemma FirstRing(r: Rx, h: Held)
    requires 0 < r.n == |r.bds| == |r.slots| == |h.ring| && r.tail == 0 && h.k == h.got == 0
    requires forall o :: 0 <= o < r.n ==> r.bds[o] == RxBd(Some(h.ring[o]), false, o == r.n - 1, 0)
    requires forall o :: 0 <= o < r.n ==> r.slots[o] == Some(h.ring[o])
    ensures RingOk(r, h, r.n, 0)
  {
  }

  // ----- The code

  class Receiver {
    const n: nat
    /** The capacity of the receive queue. */
    const cap: nat
    const bds: array<RxBd>
    const slots: array<Option<Buf>>
    var tail: nat
    var hwCnt: nat
    /** The receiver's position in the ring, and the frames still to arrive. */
    var pos: nat
    var wire: seq<Frame>
    var mem: map<Buf, Frame>
    var queue: seq<Buf>
    var pool: seq<Buf>
    ghost var held: Held
    ghost var stack: multiset<Buf>
    ghost const all: set<Buf>
    ghost var accepted: seq<Frame>
    ghost var verdicts: seq<bool>
    ghost var delivered: seq<Frame>

    function R(): Rx
      reads this, bds, slots
    {
      Rx(n, bds[..], slots[..], tail)
    }

    ghost function L(hand: multiset<Buf>): Ledger
      reads this
    {
      Ledger(all, mem, held.ring, held.got, queue, pool, stack, hand, accepted, verdicts, delivered)
    }

    /** What holds at every moment: the first `slotted` slots are in place, and the
        driver has the buffers `hand` between two owners. */
    ghost predicate Ok(slotted: nat, hand: multiset<Buf>)
      reads this, bds, slots
    {
      RingOk(R(), held, slotted, pos) && Good(L(hand)) && |queue| <= cap
    }

    /** What holds between calls. */
    ghost predicate Valid()
      reads this, bds, slots
    {
      Ok(hwCnt, multiset{}) && held.k == 0 && hwCnt == |held.ring|
    }

    /** The ring as the library creates it, a queue, and a pool of distinct buffers. */
    constructor (n: nat, cap: nat, buffers: seq<Buf>, wire: seq<Frame>)
      requires n > 0 && forall i, j :: 0 <= i < j < |buffers| ==> buffers[i] != buffers[j]
      ensures this.n == n && this.cap == cap && pool == buffers && queue == [] && this.wire == wire
      ensures Created() && fresh(bds) && fresh(slots)
      ensures stack == multiset{} && accepted == delivered == [] && verdicts == []
    {
      this.n, this.cap, this.wire := n, cap, wire;
      bds := new RxBd[n](i => RxBd(None, false, i == n - 1, 0));
      slots := new Option<Buf>[n](_ => None);
      tail, hwCnt, pos := 0, 0, 0;
      mem := map p | p in buffers :: [];
      queue, pool := [], buffers;
      held := Held(0, [], 0);
      stack, all := multiset{}, set p | p in buffers;
      accepted, verdicts, delivered := [], [], [];
      new;
      DistinctBuffers(buffers);
    }

    /** Before init_dma: nothing is in the ring yet. */
    ghost predicate Created()
      reads this, bds, slots
    {
      && 0 < n == bds.Length == slots.Length && tail == hwCnt == pos == 0 && held == Held(0, [], 0)
      && Good(L(multiset{})) && |queue| <= cap
      && (forall i :: 0 <= i < n ==> bds[i] == RxBd(None, false, i == n - 1, 0))
    }

    /** init_dma after i descriptors: each has one of the pool's first i buffers. */
    ghost predicate PartlyInit(i: nat, before: seq<Buf>)
      reads this, bds, slots
    {
      && i <= n == bds.Length == slots.Length && hwCnt == i <= |before| && tail == pos == 0
      && pool == before[i..] && held == Held(0, before[..i], 0) && |queue| <= cap
      && (forall o :: 0 <= o < n ==>
            bds[o] == RxBd(if o < i then Some(before[o]) else None, false, o == n - 1, 0))
      && (forall o :: 0 <= o < i ==> slots[o] == Some(before[o]))
    }

    method InitBd(ghost before: seq<Buf>)
      requires PartlyInit(hwCnt, before) && Good(L(multiset{})) && pool != [] && hwCnt < n
      modifies bds, slots, this`hwCnt, this`held, this`pool
      ensures hwCnt == old(hwCnt) + 1 && PartlyInit(hwCnt, before) && Good(L(multiset{}))
    {
      hide Good;
      ArmedIsGood(L(multiset{}));
      var p, i := pool[0], hwCnt;
      pool := pool[1..];
      hwCnt := hwCnt + 1;
      bds[i] := RxBd(None, false, i == n - 1, 0);
      bds[i] := bds[i].(addr := Some(p));
      slots[i] := Some(p);
      held := Longer(held, p);
    }

    /** The receive part of init_dma, before the receiver is started: one buffer for
        every descriptor, or an error when the pool has fewer. */
    method InitDma() returns (ok: bool)
      requires Created()
      modifies bds, slots, this`hwCnt, this`held, this`pool
      ensures ok <==> n <= |old(pool)|
      ensures ok ==> Valid() && hwCnt == n && held.ring == old(pool[..n]) && pool == old(pool[n..])
      ensures !ok ==> PartlyInit(|old(pool)|, old(pool)) && Good(L(multiset{})) && pool == []
      ensures queue == old(queue) && wire == old(wire)
    {
      ghost var before := pool;
      assert PartlyInit(0, before);
      hide Good, PartlyInit;
      var i := 0;
      while i < n
        invariant 0 <= i <= n && i == hwCnt && PartlyInit(i, before) && Good(L(multiset{}))
      {
        Remaining(i, before);
        if pool == [] {
          return false;
        }
        InitBd(before);
        i := i + 1;
      }
      InitDone(before);
      return true;
    }

    lemma Remaining(i: nat, before: seq<Buf>)
      requires PartlyInit(i, before)
      ensures i <= |before| && |pool| == |before| - i
    {
    }

    lemma InitDone(before: seq<Buf>)
      requires n > 0 && PartlyInit(n, before) && Good(L(multiset{}))
      ensures Valid() && hwCnt == n <= |before| && held.ring == before[..n] && pool == before[n..]
    {
      hide Good;
      FirstRing(R(), held);
    }

    /** A frame arrives: it goes to the next buffer, or is lost for want of one. */
    method Arrive(ghost slotted: nat, ghost hand: multiset<Buf>)
      requires Ok(slotted, hand) && wire != []
      modifies bds, this`pos, this`wire, this`mem, this`held, this`accepted
      ensures Ok(slotted, hand) && held.k == old(held.k) && held.ring == old(held.ring) && held.got >= old(held.got)
      ensures |wire| + held.got <= |old(wire)| + old(held.got) && |wire| < |old(wire)|
      ensures wire == old(wire[1..])
      ensures forall i :: 0 <= i < bds.Length ==> bds[i] == old(bds[i]) || (bds[i].complete && !old(bds[i].complete))
      ensures if old(held.got) < |held.ring| then held.got == old(held.got) + 1 && accepted == old(accepted + [wire[0]])
              else held.got == old(held.got) && accepted == old(accepted)
    {
      hide RingOk, Good, BdOk, At;
      Receives(R(), held, slotted, pos);
      Sizes(slotted, hand);
      var frame := wire[0];
      wire := wire[1..];
      var bd := bds[pos];
      if !bd.complete {
        ReceiveKeepsRing(R(), held, slotted, pos, |frame|);
        FillingIsGood(L(hand), frame);
        bds[pos] := Filled(bd, |frame|);
        mem := mem[bd.addr.value := frame];
        pos := if bd.wrap then 0 else pos + 1;
        accepted := accepted + [frame];
        held := OneMore(held);
      }
    }

    lemma Sizes(slotted: nat, hand: multiset<Buf>)
      requires Ok(slotted, hand)
      ensures R().Shape() && 0 < n == bds.Length == slots.Length && tail < n
      ensures held.k + |held.ring| <= n && held.got <= |held.ring|
    {
    }

    /** Any number of frames arrive. Nothing but the receive ring is touched: what is
        queued or handed out keeps its contents. */
    method Hardware(ghost slotted: nat, ghost hand: multiset<Buf>)
      requires Ok(slotted, hand)
      modifies bds, this`pos, this`wire, this`mem, this`held, this`accepted
      ensures Ok(slotted, hand) && held.k == old(held.k) && held.ring == old(held.ring) && held.got >= old(held.got)
      ensures |wire| + held.got <= |old(wire)| + old(held.got) && old(accepted) <= accepted
      ensures forall i :: 0 <= i < bds.Length ==> bds[i] == old(bds[i]) || (bds[i].complete && !old(bds[i].complete))
    {
      hide Ok;
      var arrivals: nat :| arrivals <= |wire|;
      while arrivals > 0
        invariant arrivals <= |wire|
        invariant Ok(slotted, hand) && held.k == old(held.k) && held.ring == old(held.ring) && held.got >= old(held.got)
        invariant |wire| + held.got <= |old(wire)| + old(held.got) && old(accepted) <= accepted
        invariant forall i :: 0 <= i < bds.Length ==>
          bds[i] == old(bds[i]) || (bds[i].complete && !old(bds[i].complete))
        decreases arrivals
      {
        Arrive(slotted, hand);
        arrivals := arrivals - 1;
      }
    }

    // ----- setup_rx_bds

    lemma FreeIsComplete(hand: multiset<Buf>)
      requires Ok(hwCnt, hand) && held.k == 0 && hwCnt == |held.ring| < n
      ensures At(tail, hwCnt, n) < bds.Length && bds[At(tail, hwCnt, n)].complete
    {
      assert BdOk(R().Bd(hwCnt), held, hwCnt);
      hide Good;
    }

    /** Count the next free descriptor in and clear its status. */
    method Enter(p: Buf) returns (i: nat)
      requires Ok(hwCnt, multiset{p}) && held.k == 0 && hwCnt == |held.ring| < n
      modifies bds, this`hwCnt, this`pos, this`wire, this`mem, this`held, this`accepted
      ensures hwCnt == old(hwCnt) + 1 && i == At(tail, old(hwCnt), n)
      ensures i < bds.Length && bds[i].complete && bds[i].len == 0
      ensures Ok(old(hwCnt), multiset{p}) && held.k == 0 && held.ring == old(held.ring)
      ensures held.got >= old(held.got) && |wire| + held.got <= |old(wire)| + old(held.got)
      ensures old(accepted) <= accepted
    {
      hide RingOk, Good, At;
      ghost var m := hwCnt;
      Sizes(m, multiset{p});
      FreeIsComplete(multiset{p});
      StatusKeepsRing(R(), held, pos);
      i := At(tail, hwCnt, n);
      hwCnt := hwCnt + 1;
      bds[i] := bds[i].(len := 0);
      Hardware(m, multiset{p});
    }

    /** Hand the buffer over, and only then note it in the slot. */
    method Arm(i: nat, p: Buf)
      requires hwCnt == |held.ring| + 1 <= n && Ok(hwCnt - 1, multiset{p}) && held.k == 0
      requires i == At(tail, hwCnt - 1, n) && i < bds.Length && bds[i].len == 0
      modifies bds, slots, this`pos, this`wire, this`mem, this`held, this`accepted
      ensures Valid() && held.ring == old(held.ring) + [p]
      ensures bds.Length == slots.Length && slots[i] == Some(p)
      ensures bds[i] == RxBd(Some(p), false, i == n - 1, 0) || bds[i].complete
      ensures held.got >= old(held.got) && |wire| + held.got <= |old(wire)| + old(held.got)
      ensures old(accepted) <= accepted
    {
      hide RingOk, Good, At;
      ghost var m := hwCnt - 1;
      Sizes(m, multiset{p});
      ArmKeepsRing(R(), held, pos, p);
      GivenIsGood(L(multiset{p}), p);
      bds[i] := RxBd(Some(p), false, i == n - 1, bds[i].len);
      held := Longer(held, p);
      assert multiset{p} - multiset{p} == multiset{};
      Hardware(m, multiset{});
      SlotKeepsRing(R(), held, pos);
      slots[i] := Some(p);
    }

    /** Refill one descriptor. */
    method Refill(p: Buf)
      requires Ok(hwCnt, multiset{p}) && held.k == 0 && hwCnt == |held.ring| < n
      modifies bds, slots, this`hwCnt, this`pos, this`wire, this`mem, this`held, this`accepted
      ensures Valid() && hwCnt == old(hwCnt) + 1 && held.ring == old(held.ring) + [p]
      ensures held.got >= old(held.got) && |wire| + held.got <= |old(wire)| + old(held.got)
      ensures old(accepted) <= accepted
    {
      hide Ok, At;
      var i := Enter(p);
      Arm(i, p);
    }

    /** Refill free descriptors until none is left or the pool is empty. */
    method SetupRxBds()
      requires Valid()
      modifies bds, slots, this`hwCnt, this`pos, this`wire, this`mem, this`held, this`accepted, this`pool
      ensures Valid() && hwCnt >= old(hwCnt) && (hwCnt == n || pool == [])
      ensures held.got >= old(held.got) && |wire| + held.got <= |old(wire)| + old(held.got)
      ensures old(accepted) <= accepted
    {
      hide RingOk, Good, At;
      Sizes(hwCnt, multiset{});
      var freebds := n - hwCnt;
      while freebds > 0
        invariant Valid() && freebds == n - hwCnt >= 0 && hwCnt >= old(hwCnt)
        invariant held.got >= old(held.got) && |wire| + held.got <= |old(wire)| + old(held.got)
        invariant old(accepted) <= accepted
      {
        freebds := freebds - 1;
        if pool == [] {
          return;
        }
        var p := pool[0];
        AllocatedIsGood(L(multiset{}));
        pool := pool[1..];
        assert multiset{} + multiset{p} == multiset{p};
        Refill(p);
      }
    }

    // ----- emacps_recv_handler

    /** Queue one filled buffer, or drop its frame if the queue is full. */
    method Judge(i: nat)
      requires held.got > 0 && held.k < hwCnt && i == At(tail, held.k, n)
      requires Ok(hwCnt - held.k, multiset{}) && held.k + |held.ring| == hwCnt
      modifies bds, this`pos, this`wire, this`mem, this`held, this`accepted, this`queue, this`pool, this`verdicts
      ensures held.k == old(held.k) + 1 <= hwCnt
      ensures Ok(hwCnt - held.k, multiset{}) && held.k + |held.ring| == hwCnt
      ensures |verdicts| == |old(verdicts)| + 1 && verdicts[..|old(verdicts)|] == old(verdicts)
      ensures queue == old(queue) + if verdicts[|old(verdicts)|] then [old(held.ring[0])] else []
      ensures verdicts[|old(verdicts)|] <==> |old(queue)| < cap
      ensures held.got >= old(held.got) - 1 && |wire| + held.got <= |old(wire)| + old(held.got) - 1
      ensures old(accepted) <= accepted
    {
      hide RingOk, Good;
      Sizes(hwCnt - held.k, multiset{});
      EmptyKeepsRing(R(), held, hwCnt - held.k, pos);
      var p := slots[i].value;
      JudgedIsGood(L(multiset{}), |queue| < cap);
      if |queue| < cap {
        queue := queue + [p];
        verdicts := verdicts + [true];
      } else {
        pool := pool + [p];
        verdicts := verdicts + [false];
      }
      held := Emptied(held);
      Hardware(hwCnt - held.k, multiset{});
    }

    /** XEmacPs_BdRingFromHwRx. */
    method FromHw() returns (count: nat)
      requires Valid()
      ensures count == held.got <= hwCnt
    {
      hide RingOk, Good;
      Sizes(hwCnt, multiset{});
      CompletedIsGot(R(), held, hwCnt, pos, 0);
      count := Completed(R(), 0, hwCnt);
    }

    /** XEmacPs_BdRingFree. */
    method FreeBds(count: nat)
      requires count == held.k <= hwCnt && Ok(hwCnt - held.k, multiset{}) && held.k + |held.ring| == hwCnt
      modifies this`tail, this`hwCnt, this`held
      ensures Valid() && hwCnt == old(hwCnt) - count && held == old(held).(k := 0)
    {
      hide RingOk, Good, At;
      Sizes(hwCnt - held.k, multiset{});
      FreeKeepsRing(R(), held, hwCnt - held.k, pos);
      tail := At(tail, count, n);
      hwCnt := hwCnt - count;
      held := held.(k := 0);
    }

    /** A queue of length q after k more frames: what does not fit is dropped. */
    function Queued(q: nat, k: nat): int {
      if q + k <= cap then q + k else cap
    }

    /** One batch: a verdict on every frame found, in ring order, then a refill. */
    method Batch(count: nat)
      requires Valid() && 0 < count <= held.got
      modifies bds, slots, this`tail, this`hwCnt, this`pos, this`wire, this`mem, this`held, this`accepted,
               this`queue, this`pool, this`verdicts
      ensures Valid() && (hwCnt == n || pool == [])
      ensures |verdicts| == |old(verdicts)| + count && old(verdicts) <= verdicts && old(queue) <= queue
      ensures |queue| == Queued(|old(queue)|, count)
      ensures |wire| + held.got <= |old(wire)| + old(held.got) - count && old(accepted) <= accepted
    {
      hide RingOk, Good, At;
      Bounds();
      hide Ok;
      var curbdptr, k := tail, 0;
      while k < count
        invariant 0 <= k <= count <= hwCnt && held.k == k && held.got >= count - k && hwCnt == old(hwCnt)
        invariant tail == old(tail) < n && hwCnt <= n && curbdptr == At(tail, k, n)
        invariant Ok(hwCnt - k, multiset{}) && k + |held.ring| == hwCnt
        invariant |verdicts| == |old(verdicts)| + k && old(verdicts) <= verdicts && old(queue) <= queue
        invariant |queue| == Queued(|old(queue)|, k)
        invariant |wire| + held.got <= |old(wire)| + old(held.got) - k && old(accepted) <= accepted
      {
        Judge(curbdptr);
        NextPlace(k);
        curbdptr := if curbdptr + 1 == n then 0 else curbdptr + 1;
        k := k + 1;
      }
      FreeBds(count);
      SetupRxBds();
    }

    lemma Bounds()
      requires Valid()
      ensures held.got <= hwCnt <= n && tail < n && At(tail, 0, n) == tail
    {
      Sizes(hwCnt, multiset{});
    }

    lemma NextPlace(k: nat)
      requires tail < n && k < n
      ensures At(tail, k + 1, n) == if At(tail, k, n) + 1 == n then 0 else At(tail, k, n) + 1
    {
    }

    /** Whatever is accepted has a verdict or waits in a buffer; whoever does not hold
        a buffer leaves it to the rest. */
    lemma Populations()
      requires Valid()
      ensures |accepted| == |verdicts| + held.got && held.got <= |held.ring| == hwCnt <= n
      ensures hwCnt + |queue| + |pool| + |stack| == |all|
    {
      Population(L(multiset{}));
      hide RingOk, Owned;
      Sizes(hwCnt, multiset{});
    }

    lemma QueueFits()
      requires Valid()
      ensures |queue| <= cap && |queue| == Queued(|queue|, 0)
    {
    }

    lemma QueuedTwice(q: nat, j: nat, k: nat)
      requires q <= cap
      ensures 0 <= Queued(q, j) <= cap && Queued(Queued(q, j), k) == Queued(q, j + k)
    {
    }

    /** What holds at every moment is what holds between calls, if nothing is under way. */
    lemma BetweenCalls()
      requires Ok(hwCnt, multiset{}) && held.k == 0 && hwCnt == |held.ring|
      ensures Valid()
    {
    }

    lemma AtEveryMoment()
      requires Valid()
      ensures Ok(hwCnt, multiset{}) && held.k == 0 && hwCnt == |held.ring|
    {
    }

    /** The receive interrupt: batches until no filled descriptor is found. Each
        passes frames from those still to arrive or waiting to those handled, so the
        loop ends if finitely many frames arrive meanwhile. After a handler that
        found a frame the hardware has a buffer for every descriptor, or every buffer
        that is neither queued nor with the stack; once it has none it never gets one
        again, however many go back to the pool, and no frame is accepted. */
    method RecvHandler()
      requires Valid()
      modifies bds, slots, this`tail, this`hwCnt, this`pos, this`wire, this`mem, this`held, this`accepted,
               this`queue, this`pool, this`verdicts
      ensures Valid() && held.got == 0
      ensures old(verdicts) <= verdicts && old(queue) <= queue
      ensures |queue| == Queued(|old(queue)|, |verdicts| - |old(verdicts)|)
      ensures |verdicts| > |old(verdicts)| ==>
        hwCnt == if |queue| + |stack| + n <= |all| then n else |all| - |queue| - |stack|
      ensures old(hwCnt) == 0 ==>
        hwCnt == 0 && accepted == old(accepted) && verdicts == old(verdicts) && pool == old(pool)
      ensures |accepted| == |verdicts| && old(accepted) <= accepted
      ensures |accepted| + |wire| <= |old(accepted)| + |old(wire)|
    {
      hide RingOk, Good, At, Ok, Queued;
      QueueFits();
      Populations();
      while true
        invariant Valid() && old(verdicts) <= verdicts && old(queue) <= queue
        invariant |verdicts| > |old(verdicts)| ==> hwCnt == n || pool == []
        invariant |queue| == Queued(|old(queue)|, |verdicts| - |old(verdicts)|) && old(accepted) <= accepted
        invariant |wire| + held.got + |verdicts| <= |old(wire)| + old(held.got) + |old(verdicts)|
        invariant old(hwCnt) == 0 ==>
          hwCnt == 0 && accepted == old(accepted) && verdicts == old(verdicts) && pool == old(pool)
        decreases |wire| + held.got
      {
        ghost var before := |wire| + held.got;
        Populations();
        Hardware(hwCnt, multiset{});
        Populations();
        var count := FromHw();
        if count == 0 {
          return;
        }
        QueuedTwice(|old(queue)|, |verdicts| - |old(verdicts)|, count);
        Batch(count);
      }
    }

    // ----- The other side of the queue

    /** low_level_input: the oldest queued buffer, with its frame as it arrived. */
    method LowLevelInput() returns (p: Option<Buf>)
      requires Valid()
      modifies this`queue, this`stack, this`delivered
      ensures Valid()
      ensures p == None <==> old(queue) == []
      ensures p == None ==> queue == old(queue) && stack == old(stack) && delivered == old(delivered)
      ensures p.Some? ==> old(queue) == [p.value] + queue && stack == old(stack) + multiset{p.value}
                          && p.value in mem && delivered == old(delivered) + [mem[p.value]]
    {
      hide RingOk, Owned;
      if queue == [] {
        return None;
      }
      HandedIsGood(L(multiset{}));
      p := Some(queue[0]);
      delivered := delivered + [mem[queue[0]]];
      stack := stack + multiset{queue[0]};
      queue := queue[1..];
    }

    /** With nothing queued, the frames kept have all gone up. */
    lemma Delivered()
      requires Valid() && queue == [] && |accepted| == |verdicts|
      ensures delivered == Kept(accepted, verdicts)
      ensures |accepted| == |delivered| == 1 ==> delivered == accepted
    {
      assert accepted[..|verdicts|] == accepted && delivered + [] == delivered;
      if |accepted| == 1 {
        assert accepted[..0] == [] && verdicts[..0] == [];
      }
      hide RingOk, Owned;
    }

    /** The stack gives a buffer back. */
    method StackFree(p: Buf)
      requires Valid() && p in stack
      modifies this`stack, this`pool
      ensures Valid() && stack == old(stack) - multiset{p} && pool == old(pool) + [p]
    {
      hide RingOk, Good;
      ReturnedIsGood(L(multiset{}), p);
      stack := stack - multiset{p};
      pool := pool + [p];
    }
  }

  /** One descriptor, one buffer, room for one frame; and the frame has come in. */
  method OneFrame(frame: Frame) returns (r: Receiver)
    ensures fresh(r) && fresh(r.bds) && fresh(r.slots)
    ensures r.Valid() && r.n == r.cap == 1 && r.wire == [] && r.accepted == [frame]
    ensures r.verdicts == [] && r.delivered == []
    ensures r.hwCnt == 1 && r.queue == [] && r.stack == multiset{} && |r.all| == 1
  {
    hide Receiver.Valid, Receiver.Ok, Receiver.Created, Receiver.PartlyInit, Good, Kept;
    r := new Receiver(1, 1, [0], [frame]);
    var ok := r.InitDma();
    r.Populations();
    r.AtEveryMoment();
    r.Arrive(1, multiset{});
    r.BetweenCalls();
    r.Populations();
  }

  /** The handler never refills again: the frame goes up, its buffer comes back, and
      the hardware is left without it. */
  method Starve(frame: Frame) returns (r: Receiver)
    ensures r.Valid() && r.accepted == r.delivered == [frame]
    ensures r.hwCnt == 0 && r.queue == [] && r.pool != []
  {
    hide Receiver.Valid, Receiver.Queued, Good, Kept;
    r := OneFrame(frame);
    QueueOfOne(r);
    r.RecvHandler();
    r.Populations();
    var p := r.LowLevelInput();
    r.Delivered();
    r.StackFree(p.value);
    r.RecvHandler();
  }

  lemma QueueOfOne(r: Receiver)
    requires r.cap == 1
    ensures forall k: nat :: r.Queued(0, k) == if k == 0 then 0 else 1
  {
  }

  // ----- What the invariant says of every run

  /** At every moment the frames handed up, followed by those still queued, are the
      frames the hardware accepted, in order, less those dropped. */
  lemma InOrder(l: Ledger)
    requires Good(l)
    ensures |l.verdicts| <= |l.accepted|
    ensures l.delivered <= Kept(l.accepted[..|l.verdicts|], l.verdicts)
    ensures l.delivered + Texts(l.mem, l.queue) == Kept(l.accepted[..|l.verdicts|], l.verdicts)
  {
  }

  function Trues(vs: seq<bool>): nat {
    if vs == [] then 0 else Trues(vs[..|vs| - 1]) + if vs[|vs| - 1] then 1 else 0
  }

  lemma {:induction false} KeptCount(frames: seq<Frame>, vs: seq<bool>)
    requires |frames| == |vs|
    ensures |Kept(frames, vs)| == Trues(vs)
  {
    if frames != [] {
      KeptCount(frames[..|frames| - 1], vs[..|vs| - 1]);
    }
  }

  /** No frame is lost or duplicated between the ring and the stack: accepted frames
      are delivered, queued, waiting in the ring, or dropped by a full queue. */
  lemma FramesAreConserved(l: Ledger)
    requires Good(l)
    ensures |l.accepted| == |l.delivered| + |l.queue| + l.got + (|l.verdicts| - Trues(l.verdicts))
  {
    KeptCount(l.accepted[..|l.verdicts|], l.verdicts);
  }

  /** Every buffer is counted in exactly one place. */
  lemma Population(l: Ledger)
    requires Owned(l)
    ensures |l.ring| + |l.queue| + |l.pool| + |l.stack| + |l.hand| == |l.all|
  {
    assert |multiset(l.ring) + multiset(l.queue) + multiset(l.pool) + l.stack + l.hand| == |multiset(l.all)|;
  }

  /** No two owners share a buffer. */
  lemma OwnersAreDisjoint(l: Ledger, p: Buf)
    requires Owned(l)
    ensures p in l.ring ==> p !in l.queue && p !in l.pool && p !in l.stack && p !in l.hand
    ensures p in l.queue ==> p !in l.ring && p !in l.pool && p !in l.stack && p !in l.hand
    ensures p in l.all <==> p in l.ring || p in l.queue || p in l.pool || p in l.stack || p in l.hand
    ensures forall i, j :: 0 <= i < j < |l.ring| ==> l.ring[i] != l.ring[j]
  {
    CountedOnce(l, p);
    InCount(l.ring, p);
    InCount(l.queue, p);
    InCount(l.pool, p);
    assert (multiset(l.ring) + multiset(l.queue) + multiset(l.pool) + l.stack + l.hand)[p] == multiset(l.all)[p];
    forall i, j | 0 <= i < j < |l.ring| ensures l.ring[i] != l.ring[j] {
      RingIsAlone(l, j);
    }
  }
}
